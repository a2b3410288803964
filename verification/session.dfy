/** The SMTP session: the state machine that owns the downstream (client to
    server) and upstream (server to client) byte buffers, the partially
    assembled reply and DATA body, the FIFO of replies still expected, the
    mode, and the active mail transaction.

    The notification sink is an external capability. It is modelled as a
    pure function `sink(history, event)` saying whether the call with that
    event succeeds after the calls in `history`; every call the session makes
    is recorded in `events`, in order, whatever its outcome. */
module SmtpSession {

  import opened Wrappers
  import opened Bytes
  import opened LineReader
  import opened Replies
  import Commands

  // ---------------------------------------------------------------------------
  // State

  datatype Mode =
    | Connect      // waiting for the greeting
    | Command      // the client sends commands
    | Data         // the client sends a mail body
    | PassThrough  // traffic is no longer interpreted

  /** One mail transaction: sender, recipients in order, body. */
  datatype Transaction = Transaction(from: Bytes, to: seq<Bytes>, body: Bytes)

  /** What a reply still to come answers. */
  datatype PendingReply =
    | Connect                      // the greeting
    | Command(cmd: Commands.Command)
    | Commit(tx: Transaction)      // the end of a mail body

  /** The calls the session makes on the notification sink. */
  datatype Event =
    | SmtpConnect
    | SmtpConnectReply(code: ReplyCode)
    | SmtpCommand(verb: Bytes)
    | SmtpCommandReply(verb: Bytes, code: ReplyCode)
    | SmtpTransactionCommit
    | SmtpTransactionCommitReply(code: ReplyCode)
    | SmtpParseError

  /** Whether a sink call succeeds, given the calls made before it. */
  type Sink = (seq<Event>, Event) -> bool

  /** The outcome of a public operation: `Failed` is a sink failure handed
      back to the host; protocol errors never reach the host. */
  datatype Status = Done | Failed

  datatype Session = Session(
    down: Bytes,
    up: Bytes,
    mode: Mode,
    nextReply: Option<Reply>,
    nextBody: Bytes,
    pending: seq<PendingReply>,
    active: Option<Transaction>,
    events: seq<Event>)

  /** `Session::new`. */
  const Initial: Session := Session([], [], Mode.Connect, None, [], [], None, [])

  const DOT: byte := 0x2E

  // ---------------------------------------------------------------------------
  // Helpers

  /** One sink call: recorded, and its outcome decided by the sink. */
  function Notify(s: Session, sink: Sink, e: Event): (r: (Session, bool))
    ensures r.0 == s.(events := s.events + [e])
    ensures r.1 == sink(s.events, e)
  {
    (s.(events := s.events + [e]), sink(s.events, e))
  }

  /** `get_or_insert_with(Default::default)`: the active transaction, or a
      fresh empty one. */
  function GetOrCreate(active: Option<Transaction>): (tx: Transaction)
    ensures active.Some? ==> tx == active.value
    ensures active.None? ==> tx == Transaction([], [], [])
  {
    match active
    case Some(tx) => tx
    case None => Transaction([], [], [])
  }

  // ---------------------------------------------------------------------------
  // Connection and fallback

  /** `on_new_conection`: a connect event, and the greeting becomes the first
      reply expected unless the sink fails. */
  function OnNewConnection(s: Session, sink: Sink): (r: (Session, Status))
    ensures r.0.events == s.events + [SmtpConnect]
    ensures r.1 == Done <==> sink(s.events, SmtpConnect)
    ensures r.1 == Done ==> r.0.pending == s.pending + [PendingReply.Connect]
    ensures r.1 == Failed ==> r.0.pending == s.pending
    ensures r.0.(pending := s.pending, events := s.events) == s
  {
    var (s1, ok) := Notify(s, sink, SmtpConnect);
    if !ok then (s1, Failed)
    else (s1.(pending := s1.pending + [PendingReply.Connect]), Done)
  }

  /** `fallback`: one parse-error event; unless that call fails, the session
      gives up interpreting traffic for good. A failing call is handed back
      and leaves the mode as it was. */
  function Fallback(s: Session, sink: Sink): (r: (Session, Status))
    ensures r.0.events == s.events + [SmtpParseError]
    ensures r.1 == Done <==> sink(s.events, SmtpParseError)
    ensures r.0.mode == (if r.1 == Done then PassThrough else s.mode)
    ensures r.0.(mode := s.mode, events := s.events) == s
  {
    var (s1, ok) := Notify(s, sink, SmtpParseError);
    if !ok then (s1, Failed) else (s1.(mode := PassThrough), Done)
  }

  // ---------------------------------------------------------------------------
  // Downstream: commands and mail bodies

  /** A body being accumulated is empty or made of complete lines. */
  predicate IsBody(acc: Bytes) {
    acc == [] || EndsWithCrLf(acc)
  }

  /** The invariant of a session: the reply being assembled is still open
      and the body being accumulated ends at a line boundary. */
  predicate Valid(s: Session) {
    IsOpen(s.nextReply) && IsBody(s.nextBody)
  }

  /** What `next_body` leaves behind: the rest of the buffer, the body
      accumulated so far, and the complete body once the terminator line
      has been seen. */
  datatype BodyStep = BodyStep(rest: Bytes, acc: Bytes, body: Option<Bytes>)

  /** `next_body`: moves complete lines, each followed by `<CR><LF>`, from the
      buffer into the body. A line that is exactly `.` ends the body, but
      only when the body already holds something; the terminator line stays
      in the body and no dot-unstuffing is done. No byte is lost or
      duplicated: the old body and buffer are the new body and buffer. */
  function NextBody(buf: Bytes, acc: Bytes): (r: BodyStep)
    ensures |r.rest| <= |buf|
    ensures r.body.None? ==> acc + buf == r.acc + r.rest && NoCrLf(r.rest)
    ensures r.body.Some? ==> acc + buf == r.body.value + r.rest && r.acc == [] && |r.rest| < |buf|
    ensures r.body.Some? ==> |r.body.value| > 3 && r.body.value[|r.body.value| - 3..] == [DOT, CR, LF]
    ensures r.acc == acc || r.acc == [] || EndsWithCrLf(r.acc)
    decreases |buf|
  {
    match NextLine(buf)
    case None => BodyStep(buf, acc, None)
    case Some((line, rest)) =>
      var end := acc != [] && line == [DOT];
      var acc' := acc + line + CRLF;
      assert acc + buf == acc' + rest;
      if end then BodyStep(rest, [], Some(acc'))
      else NextBody(rest, acc')
  }

  /** One turn of a drain loop: it stops with a result, or goes on with the
      session it has reached. */
  datatype Iteration = Stop(result: (Session, Status)) | Continue(next: Session)

  /** What downstream draining may change: the upstream side is untouched,
      reports and pending entries are only added at the end, and the body
      keeps ending at a line boundary. */
  predicate DownstreamFrame(s: Session, t: Session) {
    && t.up == s.up && t.nextReply == s.nextReply
    && s.events <= t.events && s.pending <= t.pending
    && (IsBody(s.nextBody) ==> IsBody(t.nextBody))
  }

  /** One turn of the downstream loop of `on_downstream_data`. In `Data` mode
      a complete body commits the active transaction (created if absent):
      the transaction joins the queue, a commit is reported and the session
      returns to `Command`. In the other modes a complete line is parsed: a
      command is reported and then expected to be answered, a malformed line
      falls back. A sink failure stops the loop, with the rest of the buffer
      kept for the next call. */
  function DownstreamStep(s: Session, sink: Sink): (n: Iteration)
    ensures s.mode == PassThrough ==> n == Stop((s, Done))
    ensures n.Continue? ==> |n.next.down| < |s.down| && DownstreamFrame(s, n.next)
    ensures n.Stop? ==> DownstreamFrame(s, n.result.0)
    ensures n.Stop? && n.result.1 == Done && n.result.0.mode != PassThrough ==> NoCrLf(n.result.0.down)
    // a complete command line that does not parse falls back
    ensures (s.mode == Mode.Connect || s.mode == Mode.Command) && NextLine(s.down).Some?
            && Commands.ParseCommand(NextLine(s.down).value.0).Err? ==>
              n == Stop(Fallback(s.(down := NextLine(s.down).value.1), sink))
    // and that is the only way this loop gives up interpreting traffic
    ensures n.Stop? && s.mode != PassThrough && n.result.0.mode == PassThrough ==>
              (s.mode == Mode.Connect || s.mode == Mode.Command) && n.result.0.events == s.events + [SmtpParseError]
    // a failure is one refused sink call, handed back without falling back
    ensures n.Stop? && n.result.1 == Failed ==>
              && n.result.0.mode == s.mode
              && |n.result.0.events| == |s.events| + 1
              && !sink(s.events, n.result.0.events[|s.events|])
  {
    if s.mode == PassThrough then Stop((s, Done))
    else if s.mode == Mode.Data then BodyTurn(s, sink)
    else LineTurn(s, sink)
  }

  /** A turn while commands are expected: nothing to do without a complete
      line, otherwise that line is taken off the buffer and interpreted. */
  function LineTurn(s: Session, sink: Sink): (n: Iteration)
    ensures n.Continue? ==> |n.next.down| < |s.down| && DownstreamFrame(s, n.next) && n.next.mode == s.mode
    ensures n.Stop? ==> DownstreamFrame(s, n.result.0)
    ensures n.Stop? && n.result.1 == Done && n.result.0.mode != PassThrough ==> n == Stop((s, Done)) && NoCrLf(s.down)
    ensures NextLine(s.down).Some? && Commands.ParseCommand(NextLine(s.down).value.0).Err? ==>
              n == Stop(Fallback(s.(down := NextLine(s.down).value.1), sink))
    ensures n.Stop? && n.result.0.mode != s.mode ==>
              n.result.0.mode == PassThrough && n.result.0.events == s.events + [SmtpParseError]
    ensures n.Stop? && n.result.1 == Failed ==>
              |n.result.0.events| == |s.events| + 1 && !sink(s.events, n.result.0.events[|s.events|])
  {
    match NextLine(s.down)
    case None => Stop((s, Done))
    case Some((line, rest)) => CommandTurn(s.(down := rest), line, sink)
  }

  /** A complete command line, already taken off the buffer: a command is
      reported and then expected to be answered; a line that does not parse
      falls back; a refused report is handed back. */
  function CommandTurn(s: Session, line: Bytes, sink: Sink): (n: Iteration)
    ensures var t := if n.Continue? then n.next else n.result.0;
            && t.down == s.down && t.up == s.up && t.nextReply == s.nextReply && t.nextBody == s.nextBody
            && t.active == s.active && s.events <= t.events && s.pending <= t.pending
    ensures n.Continue? ==> n.next.mode == s.mode
    ensures Commands.ParseCommand(line).Err? <==> n == Stop(Fallback(s, sink))
    ensures Commands.ParseCommand(line).Ok? ==>
              var cmd := Commands.ParseCommand(line).value;
              && (n.Continue? <==> sink(s.events, SmtpCommand(Commands.Verb(cmd))))
              && (n.Continue? ==> n.next.pending == s.pending + [PendingReply.Command(cmd)]
                                  && n.next.events == s.events + [SmtpCommand(Commands.Verb(cmd))])
              && (n.Stop? ==> n.result == (s.(events := s.events + [SmtpCommand(Commands.Verb(cmd))]), Failed))
  {
    match Commands.ParseCommand(line)
    case Err => Stop(Fallback(s, sink))
    case Ok(cmd) =>
      var (s2, ok) := Notify(s, sink, SmtpCommand(Commands.Verb(cmd)));
      if !ok then
        assert Fallback(s, sink).0.events[|s.events|] != s2.events[|s.events|];
        Stop((s2, Failed))
      else Continue(s2.(pending := s2.pending + [PendingReply.Command(cmd)]))
  }

  /** A turn in `Data` mode: complete lines join the body, and a complete
      body is committed. Without a complete body the turn waits for more,
      with no complete line left behind. */
  function BodyTurn(s: Session, sink: Sink): (n: Iteration)
    ensures n.Continue? ==> |n.next.down| < |s.down| && DownstreamFrame(s, n.next) && n.next.mode == Mode.Command
    ensures n.Stop? ==> DownstreamFrame(s, n.result.0) && n.result.0.mode == s.mode
    ensures n.Stop? && n.result.1 == Done ==> NoCrLf(n.result.0.down)
    ensures n.Stop? && n.result.1 == Failed ==>
              |n.result.0.events| == |s.events| + 1 && !sink(s.events, n.result.0.events[|s.events|])
  {
    var step := NextBody(s.down, s.nextBody);
    var s1 := s.(down := step.rest, nextBody := step.acc);
    match step.body
    case None => Stop((s1, Done))
    case Some(body) => CommitBody(s1, body, sink)
  }

  /** The end of a body: the active transaction (created if absent) takes
      the body and joins the queue, and the commit is reported. Even when the
      report fails the transaction has already left `active`. */
  function CommitBody(s: Session, body: Bytes, sink: Sink): (n: Iteration)
    ensures var t := if n.Continue? then n.next else n.result.0;
            && t.active.None?
            && t.pending == s.pending + [PendingReply.Commit(GetOrCreate(s.active).(body := body))]
            && t.events == s.events + [SmtpTransactionCommit]
            && (n.Stop? <==> !sink(s.events, SmtpTransactionCommit))
            && (n.Stop? ==> n.result.1 == Failed && t.mode == s.mode)
            && (n.Continue? ==> t.mode == Mode.Command)
            && t.(mode := s.mode, active := s.active, pending := s.pending, events := s.events) == s
  {
    var tx := GetOrCreate(s.active).(body := body);
    var s2 := s.(active := None, pending := s.pending + [PendingReply.Commit(tx)]);
    var (s3, ok) := Notify(s2, sink, SmtpTransactionCommit);
    if !ok then Stop((s3, Failed)) else Continue(s3.(mode := Mode.Command))
  }

  /** Drains the downstream buffer until nothing complete is left, the
      session falls back or a sink call fails. When it ends without a failure
      and still interpreting traffic, no complete line is left behind. */
  function DrainDownstream(s: Session, sink: Sink): (r: (Session, Status))
    ensures r.0.up == s.up && r.0.nextReply == s.nextReply
    ensures s.events <= r.0.events && s.pending <= r.0.pending
    ensures IsBody(s.nextBody) ==> IsBody(r.0.nextBody)
    ensures s.mode == PassThrough ==> r == (s, Done)
    ensures r.1 == Done && r.0.mode != PassThrough ==> NoCrLf(r.0.down)
    decreases |s.down|
  {
    match DownstreamStep(s, sink)
    case Stop(r) => r
    case Continue(s2) => DrainDownstream(s2, sink)
  }

  /** `on_downstream_data`: in `PassThrough` the bytes are dropped without
      being buffered; otherwise they are appended and drained. */
  function OnDownstreamData(s: Session, data: Bytes, sink: Sink): (r: (Session, Status))
    ensures s.mode == PassThrough ==> r == (s, Done)
    ensures s.mode != PassThrough && NoCrLf(s.down + data) ==> r == (s.(down := s.down + data), Done)
    ensures r.0.up == s.up && r.0.nextReply == s.nextReply
    ensures s.events <= r.0.events && s.pending <= r.0.pending
    ensures IsBody(s.nextBody) ==> IsBody(r.0.nextBody)
    ensures r.1 == Done && r.0.mode != PassThrough ==> NoCrLf(r.0.down)
  {
    if s.mode == PassThrough then (s, Done)
    else DrainDownstream(s.(down := s.down + data), sink)
  }

  // ---------------------------------------------------------------------------
  // Upstream: replies

  /** All lines of a reply but its last say more lines follow, and the last
      says it is the last. */
  predicate IsComplete(r: Reply) {
    var ls := Lines(r);
    && ls[|ls| - 1].last
    && forall i :: 0 <= i < |ls| - 1 ==> !ls[i].last
  }

  /** A reply still being assembled: every line so far says more follow. */
  predicate IsOpen(p: Option<Reply>) {
    p.Some? ==> forall i :: 0 <= i < |Lines(p.value)| ==> !Lines(p.value)[i].last
  }

  /** The lines already assembled, if any. */
  function PartialLines(p: Option<Reply>): (ls: seq<ReplyLine>) {
    if p.Some? then Lines(p.value) else []
  }

  /** The reply being assembled with one more line: a new reply when there
      is none yet, otherwise the line appended, the code kept. */
  function Extend(partial: Option<Reply>, l: ReplyLine): (r: Reply)
    ensures Lines(r) == PartialLines(partial) + [l]
    ensures partial.Some? ==> Code(r) == Code(partial.value)
  {
    if partial.Some? then Append(partial.value, l) else NewReply(l)
  }

  /** A line that says more follow keeps an open reply open; a last line
      completes it. Either way the lines so far stay a proper prefix. */
  lemma ExtendOpen(partial: Option<Reply>, l: ReplyLine)
    ensures partial.Some? ==> Lines(partial.value) < Lines(Extend(partial, l))
    ensures IsOpen(partial) && !l.last ==> IsOpen(Some(Extend(partial, l)))
    ensures IsOpen(partial) && l.last ==> IsComplete(Extend(partial, l))
  {
  }

  /** What `next_reply` leaves behind: the rest of the buffer, the reply
      still being assembled, and a complete reply, nothing yet, or an error. */
  datatype ReplyStep = ReplyStep(rest: Bytes, partial: Option<Reply>, result: Result<Option<Reply>>)

  /** `next_reply`: parses complete lines from the buffer and appends them to
      the reply being assembled until a last line completes it. A malformed
      line is consumed and reported as an error, with the partial reply kept.
      A complete reply starts with the lines already assembled. */
  function NextReply(buf: Bytes, partial: Option<Reply>): (r: ReplyStep)
    ensures |r.rest| <= |buf|
    ensures r.result != Ok(None) ==> |r.rest| < |buf|
    ensures r.result == Ok(None) ==> NoCrLf(r.rest)
    ensures r.result.Ok? && r.result.value.Some? ==> r.partial.None?
    ensures partial.Some? && r.partial.Some? ==>
              Lines(partial.value) <= Lines(r.partial.value) && Code(r.partial.value) == Code(partial.value)
    ensures IsOpen(partial) ==> IsOpen(r.partial)
    ensures IsOpen(partial) && r.result.Ok? && r.result.value.Some? ==> IsComplete(r.result.value.value)
    ensures partial.Some? && r.result.Ok? && r.result.value.Some? ==>
              Lines(partial.value) < Lines(r.result.value.value)
              && Code(r.result.value.value) == Code(partial.value)
    // a complete line that does not parse is consumed and reported, and the
    // reply being assembled is kept as it was
    ensures NextLine(buf).Some? && ParseReplyLine(NextLine(buf).value.0).Err? ==>
              r == ReplyStep(NextLine(buf).value.1, partial, Err)
    decreases |buf|
  {
    match NextLine(buf)
    case None => ReplyStep(buf, partial, Ok(None))
    case Some((text, rest)) =>
      match ParseReplyLine(text)
      case Err => ReplyStep(rest, partial, Err)
      case Ok(line) =>
        var reply := Extend(partial, line);
        ExtendOpen(partial, line);
        if line.last then ReplyStep(rest, None, Ok(Some(reply)))
        else NextReply(rest, Some(reply))
  }

  /** The reply-effect table of the `ReplyHandler` impls. Only a positive
      reply (2yz or 3yz) has an effect: HELO, EHLO and RSET drop the active
      transaction; MAIL sets its sender and RCPT appends a recipient, both
      creating it if absent; DATA creates it if absent, empties its body and
      enters `Data`; STARTTLS and an unknown command end interpretation.
      VRFY, EXPN, HELP, NOOP and QUIT have no effect. Nothing but the mode
      and the active transaction changes. */
  function ApplyCommandReply(s: Session, cmd: Commands.Command, code: ReplyCode): (r: Session)
    ensures r.(mode := s.mode, active := s.active) == s
    ensures !IsPositive(code.x) ==> r == s
    ensures r.mode != s.mode ==>
              IsPositive(code.x)
              && ((cmd.Data? && r.mode == Mode.Data)
                  || ((cmd.StartTls? || cmd.Unknown?) && r.mode == PassThrough))
    ensures r.active != s.active ==> IsPositive(code.x) && (cmd.Helo? || cmd.Ehlo? || cmd.Rset? || cmd.Mail? || cmd.Rcpt? || cmd.Data?)
    ensures IsPositive(code.x) && (cmd.Helo? || cmd.Ehlo? || cmd.Rset?) ==> r.active.None?
    ensures IsPositive(code.x) && cmd.Mail? ==>
              r.active == Some(GetOrCreate(s.active).(from := cmd.mail.from))
    ensures IsPositive(code.x) && cmd.Rcpt? ==>
              r.active.Some? && r.active.value.to == GetOrCreate(s.active).to + [cmd.rcpt.to]
              && r.active.value.from == GetOrCreate(s.active).from
              && r.active.value.body == GetOrCreate(s.active).body
    ensures IsPositive(code.x) && cmd.Data? ==>
              r.active == Some(GetOrCreate(s.active).(body := [])) && r.mode == Mode.Data
    ensures IsPositive(code.x) && (cmd.StartTls? || cmd.Unknown?) ==> r.mode == PassThrough && r.active == s.active
  {
    if !IsPositive(code.x) then s
    else match cmd
      case Helo(_) => s.(active := None)
      case Ehlo(_) => s.(active := None)
      case Rset => s.(active := None)
      case Mail(mail) => s.(active := Some(GetOrCreate(s.active).(from := mail.from)))
      case Rcpt(rcpt) =>
        var tx := GetOrCreate(s.active);
        s.(active := Some(tx.(to := tx.to + [rcpt.to])))
      case Data => s.(active := Some(GetOrCreate(s.active).(body := [])), mode := Mode.Data)
      case StartTls => s.(mode := PassThrough)
      case Unknown(_) => s.(mode := PassThrough)
      case Vrfy(_) => s
      case Expn(_) => s
      case Help(_) => s
      case Noop(_) => s
      case Quit => s
  }

  /** The event that reports a reply to the given pending entry. */
  function ReplyEvent(p: PendingReply, code: ReplyCode): (e: Event)
    ensures e.SmtpConnectReply? <==> p.Connect?
    ensures e.SmtpCommandReply? <==> p.Command?
    ensures e.SmtpTransactionCommitReply? <==> p.Commit?
    ensures e.code == code
    ensures p.Command? ==> e.verb == Commands.Verb(p.cmd)
  {
    match p
    case Connect => SmtpConnectReply(code)
    case Command(cmd) => SmtpCommandReply(Commands.Verb(cmd), code)
    case Commit(_) => SmtpTransactionCommitReply(code)
  }

  /** `handle_reply`: a complete reply answers the front of the queue, which
      is removed and reported with the reply's code. The greeting's reply
      enters `Command` whatever its code; a command's reply has the effect
      of the table; a commit's reply has none. With nothing pending, the
      reply is an error and nothing changes. */
  function HandleReply(s: Session, reply: Reply, sink: Sink): (r: (Session, Status))
    ensures s.pending == [] ==> r == (s, Failed)
    ensures s.pending != [] ==>
              && r.0.pending == s.pending[1..]
              && r.0.events == s.events + [ReplyEvent(s.pending[0], Code(reply))]
              && (r.1 == Done <==> sink(s.events, ReplyEvent(s.pending[0], Code(reply))))
    ensures r.0.down == s.down && r.0.up == s.up && r.0.nextReply == s.nextReply && r.0.nextBody == s.nextBody
    ensures s.pending != [] && s.pending[0].Connect? && r.1 == Done ==> r.0.mode == Mode.Command && r.0.active == s.active
    ensures s.pending != [] && s.pending[0].Command? && r.1 == Done ==>
              r.0 == ApplyCommandReply(s.(pending := s.pending[1..], events := r.0.events), s.pending[0].cmd, Code(reply))
    ensures (s.pending != [] && s.pending[0].Commit?) || r.1 == Failed ==> r.0.mode == s.mode && r.0.active == s.active
  {
    if s.pending == [] then (s, Failed)
    else
      var front := s.pending[0];
      var s1 := s.(pending := s.pending[1..]);
      var (s2, ok) := Notify(s1, sink, ReplyEvent(front, Code(reply)));
      if !ok then (s2, Failed)
      else match front
        case Connect => (s2.(mode := Mode.Command), Done)
        case Command(cmd) => (ApplyCommandReply(s2, cmd, Code(reply)), Done)
        case Commit(_) => (s2, Done)
  }

  /** What upstream draining may change: the downstream side is untouched,
      reports are only added at the end, pending entries are only removed
      from the front, and the reply being assembled stays open. */
  predicate UpstreamFrame(s: Session, t: Session) {
    && t.down == s.down && t.nextBody == s.nextBody
    && s.events <= t.events
    && |t.pending| <= |s.pending| && t.pending == s.pending[|s.pending| - |t.pending|..]
    && (IsOpen(s.nextReply) ==> IsOpen(t.nextReply))
  }

  /** One turn of the upstream loop of `on_upstream_data`. A complete reply
      is handled; a malformed reply line, a reply with nothing pending or a
      sink failure while reporting a reply falls back. */
  function UpstreamStep(s: Session, sink: Sink): (n: Iteration)
    ensures s.mode == PassThrough ==> n == Stop((s, Done))
    ensures n.Continue? ==> |n.next.up| < |s.up| && UpstreamFrame(s, n.next)
    ensures n.Stop? ==> UpstreamFrame(s, n.result.0)
    ensures n.Stop? && n.result.1 == Done && n.result.0.mode != PassThrough ==> NoCrLf(n.result.0.up)
    // a malformed reply line falls back
    ensures var st := NextReply(s.up, s.nextReply);
            s.mode != PassThrough && st.result.Err? ==>
              n == Stop(Fallback(s.(up := st.rest, nextReply := st.partial), sink))
    // a complete reply goes on exactly when something is pending and its
    // report is accepted; otherwise the turn falls back
    ensures var st := NextReply(s.up, s.nextReply);
            s.mode != PassThrough && st.result.Ok? && st.result.value.Some? ==>
              (n.Continue? <==> s.pending != [] && sink(s.events, ReplyEvent(s.pending[0], Code(st.result.value.value))))
    // a failure is only ever the refused report of a fallback
    ensures n.Stop? && n.result.1 == Failed ==>
              && n.result.0.mode == s.mode
              && |n.result.0.events| > |s.events|
              && n.result.0.events[|n.result.0.events| - 1] == SmtpParseError
              && !sink(n.result.0.events[..|n.result.0.events| - 1], SmtpParseError)
  {
    if s.mode == PassThrough then Stop((s, Done))
    else
      var step := NextReply(s.up, s.nextReply);
      var s1 := s.(up := step.rest, nextReply := step.partial);
      match step.result
      case Err => Stop(Fallback(s1, sink))
      case Ok(None) => Stop((s1, Done))
      case Ok(Some(reply)) =>
        var (s2, status) := HandleReply(s1, reply, sink);
        if status == Failed then Stop(Fallback(s2, sink))
        else
          assert s2.pending == s.pending[1..];
          Continue(s2)
  }

  /** Drains the upstream buffer until nothing complete is left, the session
      falls back or a sink call fails. When it ends without a failure and
      still interpreting traffic, no complete line is left behind. */
  function DrainUpstream(s: Session, sink: Sink): (r: (Session, Status))
    ensures r.0.down == s.down && r.0.nextBody == s.nextBody
    ensures s.events <= r.0.events
    ensures |r.0.pending| <= |s.pending| && r.0.pending == s.pending[|s.pending| - |r.0.pending|..]
    ensures IsOpen(s.nextReply) ==> IsOpen(r.0.nextReply)
    ensures s.mode == PassThrough ==> r == (s, Done)
    ensures r.1 == Done && r.0.mode != PassThrough ==> NoCrLf(r.0.up)
    decreases |s.up|
  {
    match UpstreamStep(s, sink)
    case Stop(r) => r
    case Continue(s2) =>
      var r := DrainUpstream(s2, sink);
      assert r.0.pending == s.pending[|s.pending| - |r.0.pending|..];
      r
  }

  /** `on_upstream_data`: in `PassThrough` the bytes are dropped without being
      buffered; otherwise they are appended and drained. */
  function OnUpstreamData(s: Session, data: Bytes, sink: Sink): (r: (Session, Status))
    ensures s.mode == PassThrough ==> r == (s, Done)
    ensures s.mode != PassThrough && NoCrLf(s.up + data) ==> r == (s.(up := s.up + data), Done)
    ensures r.0.down == s.down && r.0.nextBody == s.nextBody
    ensures s.events <= r.0.events
    ensures |r.0.pending| <= |s.pending| && r.0.pending == s.pending[|s.pending| - |r.0.pending|..]
    ensures IsOpen(s.nextReply) ==> IsOpen(r.0.nextReply)
    ensures r.1 == Done && r.0.mode != PassThrough ==> NoCrLf(r.0.up)
  {
    if s.mode == PassThrough then (s, Done)
    else DrainUpstream(s.(up := s.up + data), sink)
  }
}
