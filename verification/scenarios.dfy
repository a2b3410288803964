/** End-to-end exchanges: a client command or a server reply arriving in one
    piece, and whole conversations built from them. */
module Scenarios {

  import opened Wrappers
  import opened Bytes
  import opened LineReader
  import opened Replies
  import opened SmtpSession
  import opened SessionProperties
  import Commands
  import Verbs

  /** A sink whose every call succeeds. */
  const AcceptAll: Sink := (history: seq<Event>, e: Event) => true

  // ---------------------------------------------------------------------------
  // One exchange

  /** A command line arriving alone, while commands are expected, is reported
      by its verb and queued to be answered; nothing else changes. */
  lemma SendCommand(s: Session, c: Commands.Command, sink: Sink)
    requires s.mode == Mode.Connect || s.mode == Mode.Command
    requires s.down == [] && Commands.WellFormed(c) && NoCrLf(Commands.Render(c))
    requires sink(s.events, SmtpCommand(Commands.Verb(c)))
    ensures OnDownstreamData(s, Commands.Render(c) + CRLF, sink)
            == (s.(pending := s.pending + [PendingReply.Command(c)],
                   events := s.events + [SmtpCommand(Commands.Verb(c))]), Done)
  {
    var line := Commands.Render(c);
    var t := s.(down := line + CRLF);
    assert s.down + (line + CRLF) == line + CRLF + [];
    Commands.ParseRender(c);
    CommandLineStep(t, line, [], c, sink);
    var s2 := s.(pending := s.pending + [PendingReply.Command(c)],
                 events := s.events + [SmtpCommand(Commands.Verb(c))]);
    assert t.(down := [], pending := s2.pending, events := s2.events) == s2;
    DownstreamIdle(s2, sink);
    DownstreamOneTurn(t, s2, sink);
  }

  /** With no complete line buffered while commands are expected, the
      downstream loop stops at once. */
  lemma DownstreamIdle(s: Session, sink: Sink)
    requires s.mode == Mode.Connect || s.mode == Mode.Command
    requires NoCrLf(s.down)
    ensures DownstreamStep(s, sink) == Stop((s, Done))
  {
  }

  /** A loop that takes one turn and then stops ends where that turn left it. */
  lemma DownstreamOneTurn(s: Session, n: Session, sink: Sink)
    requires DownstreamStep(s, sink) == Continue(n) && DownstreamStep(n, sink) == Stop((n, Done))
    ensures DrainDownstream(s, sink) == (n, Done)
  {
  }

  /** The same for the upstream loop. */
  lemma UpstreamOneTurn(s: Session, n: Session, sink: Sink)
    requires UpstreamStep(s, sink) == Continue(n) && UpstreamStep(n, sink) == Stop((n, Done))
    ensures DrainUpstream(s, sink) == (n, Done)
  {
  }

  /** One complete command line at the head of the buffer, parsed and
      reported without a failure, is consumed and queued. */
  lemma CommandLineStep(s: Session, line: Bytes, rest: Bytes, cmd: Commands.Command, sink: Sink)
    requires s.mode == Mode.Connect || s.mode == Mode.Command
    requires s.down == line + CRLF + rest && NoCrLf(line)
    requires Commands.ParseCommand(line) == Ok(cmd)
    requires sink(s.events, SmtpCommand(Commands.Verb(cmd)))
    ensures DownstreamStep(s, sink)
            == Continue(s.(down := rest, pending := s.pending + [PendingReply.Command(cmd)],
                           events := s.events + [SmtpCommand(Commands.Verb(cmd))]))
  {
    NextLineOfFramed(line, rest);
  }

  /** A reply arriving alone is handled as one reply, whatever number of
      lines it has, and leaves nothing buffered. */
  lemma ReceiveReply(s: Session, ls: seq<ReplyLine>, sink: Sink)
    requires s.mode != PassThrough && s.up == [] && s.nextReply.None? && s.pending != []
    requires IsWireReply(ls)
    requires sink(s.events, ReplyEvent(s.pending[0], ls[0].code))
    ensures HandleReply(s, Reply(ls[0], ls[1..]), sink).1 == Done
    ensures OnUpstreamData(s, WireLines(ls), sink) == (HandleReply(s, Reply(ls[0], ls[1..]), sink).0, Done)
  {
    ReadWireReply(None, ls, []);
    assert WireLines(ls) + [] == WireLines(ls);
    var st := NextReply(WireLines(ls), None);
    var reply := st.result.value.value;
    assert [] + ls == ls;
    LinesDetermineReply(reply, ls);
    assert Code(reply) == ls[0].code;
    var h := HandleReply(s, reply, sink);
    assert h.1 == Done;
    var t := s.(up := WireLines(ls));
    assert t.(up := [], nextReply := None) == s;
    ReplyStepContinues(t, [], None, reply, sink);
    assert h.0.up == [] && h.0.nextReply.None?;
    UpstreamIdle(h.0, sink);
    UpstreamOneTurn(t, h.0, sink);
    assert s.up + WireLines(ls) == t.up;
  }

  /** A reply is determined by its lines. */
  lemma LinesDetermineReply(r: Reply, ls: seq<ReplyLine>)
    requires Lines(r) == ls
    ensures r == Reply(ls[0], ls[1..])
  {
    assert Lines(r) == [r.first] + r.rest;
  }

  /** One complete reply at the head of the buffer, handled without a
      failure, lets the upstream loop go on. */
  lemma ReplyStepContinues(s: Session, rest: Bytes, partial: Option<Reply>, reply: Reply, sink: Sink)
    requires s.mode != PassThrough
    requires NextReply(s.up, s.nextReply) == ReplyStep(rest, partial, Ok(Some(reply)))
    requires HandleReply(s.(up := rest, nextReply := partial), reply, sink).1 == Done
    ensures UpstreamStep(s, sink) == Continue(HandleReply(s.(up := rest, nextReply := partial), reply, sink).0)
  {
  }

  /** With nothing buffered upstream, the upstream loop stops at once. */
  lemma UpstreamIdle(s: Session, sink: Sink)
    requires s.up == [] && s.nextReply.None?
    ensures UpstreamStep(s, sink) == Stop((s, Done))
  {
    if s.mode != PassThrough {
      assert NextReply([], None) == ReplyStep([], None, Ok(None));
    }
  }

  // ---------------------------------------------------------------------------
  // Whole conversations

  const C220: ReplyCode := ReplyCode(PositiveCompletion, Connections, ReplyGradation(0))
  const C250: ReplyCode := ReplyCode(PositiveCompletion, MailSystem, ReplyGradation(0))
  const C354: ReplyCode := ReplyCode(PositiveIntermediate, MailSystem, ReplyGradation(4))
  const C550: ReplyCode := ReplyCode(PermanentNegativeCompletion, MailSystem, ReplyGradation(0))

  /** A one-line reply on the wire. */
  function OneLine(code: ReplyCode, text: Bytes): (wire: Bytes) {
    WireLines([ReplyLine(code, true, text)])
  }

  /** The greeting: a new connection is reported, and the 220 reply to it
      is reported and lets commands in. */
  lemma Greeting(text: Bytes)
    requires NoCrLf(text)
    ensures var s1 := OnNewConnection(Initial, AcceptAll).0;
            var r := OnUpstreamData(s1, OneLine(C220, text), AcceptAll);
            && r.1 == Done
            && r.0 == Initial.(mode := Mode.Command, events := [SmtpConnect, SmtpConnectReply(C220)])
  {
    var s1 := OnNewConnection(Initial, AcceptAll).0;
    assert s1 == Initial.(pending := [PendingReply.Connect], events := [SmtpConnect]);
    ReceiveReply(s1, [ReplyLine(C220, true, text)], AcceptAll);
  }

  /** A command and its one-line reply, in a session that expects commands
      and has nothing buffered or pending. */
  lemma CommandThenReply(s: Session, c: Commands.Command, code: ReplyCode, text: Bytes)
    requires s.mode == Mode.Command && s.down == [] && s.up == [] && s.nextReply.None? && s.pending == []
    requires Commands.WellFormed(c) && NoCrLf(Commands.Render(c)) && NoCrLf(text)
    ensures var s1 := OnDownstreamData(s, Commands.Render(c) + CRLF, AcceptAll).0;
            var r := OnUpstreamData(s1, OneLine(code, text), AcceptAll);
            && r.1 == Done
            && r.0 == ApplyCommandReply(
                        s.(events := s.events + [SmtpCommand(Commands.Verb(c)),
                                                 SmtpCommandReply(Commands.Verb(c), code)]),
                        c, code)
  {
    var v := Commands.Verb(c);
    SendCommand(s, c, AcceptAll);
    var s1 := s.(pending := s.pending + [PendingReply.Command(c)], events := s.events + [SmtpCommand(v)]);
    CommandReply(s1, c, code, text);
    AppendTwo(s.events, SmtpCommand(v), SmtpCommandReply(v, code));
    assert s1.(pending := [], events := s1.events + [SmtpCommandReply(v, code)])
        == s.(events := s.events + [SmtpCommand(v), SmtpCommandReply(v, code)]);
  }

  /** A one-line reply to the only pending command takes that command's
      effect. */
  lemma CommandReply(s: Session, c: Commands.Command, code: ReplyCode, text: Bytes)
    requires s.mode != PassThrough && s.up == [] && s.nextReply.None? && s.pending == [PendingReply.Command(c)]
    requires NoCrLf(text)
    ensures OnUpstreamData(s, OneLine(code, text), AcceptAll)
            == (ApplyCommandReply(s.(pending := [], events := s.events + [SmtpCommandReply(Commands.Verb(c), code)]), c, code), Done)
  {
    OneLineReply(s, code, text, AcceptAll);
  }

  /** A one-line reply arriving alone is handled as that reply. */
  lemma OneLineReply(s: Session, code: ReplyCode, text: Bytes, sink: Sink)
    requires s.mode != PassThrough && s.up == [] && s.nextReply.None? && s.pending != []
    requires NoCrLf(text)
    requires sink(s.events, ReplyEvent(s.pending[0], code))
    ensures HandleReply(s, Reply(ReplyLine(code, true, text), []), sink).1 == Done
    ensures OnUpstreamData(s, OneLine(code, text), sink) == HandleReply(s, Reply(ReplyLine(code, true, text), []), sink)
  {
    var ls := [ReplyLine(code, true, text)];
    assert IsWireReply(ls);
    assert ls[1..] == [];
    ReceiveReply(s, ls, sink);
  }

  /** A command sent while nothing is in flight, followed by a one-line
      reply to it. */
  function Exchange(s: Session, c: Commands.Command, code: ReplyCode, text: Bytes): (t: Session) {
    OnUpstreamData(OnDownstreamData(s, Commands.Render(c) + CRLF, AcceptAll).0, OneLine(code, text), AcceptAll).0
  }

  /** A MAIL command accepted with 250 records its sender. */
  lemma AcceptedMail(s: Session, from: Bytes, text: Bytes)
    requires s.mode == Mode.Command && s.down == [] && s.up == [] && s.nextReply.None? && s.pending == []
    requires NoCrLf(Verbs.MAIL + [SP] + from) && NoCrLf(text)
    ensures Exchange(s, Commands.Mail(Verbs.Mail(from, None)), C250, text)
            == s.(active := Some(GetOrCreate(s.active).(from := from)),
                  events := s.events + [SmtpCommand(Verbs.MAIL), SmtpCommandReply(Verbs.MAIL, C250)])
  {
    CommandThenReply(s, Commands.Mail(Verbs.Mail(from, None)), C250, text);
  }

  /** A RCPT command accepted with 250 adds its recipient. */
  lemma AcceptedRcpt(s: Session, to: Bytes, text: Bytes)
    requires s.mode == Mode.Command && s.down == [] && s.up == [] && s.nextReply.None? && s.pending == []
    requires NoCrLf(Verbs.RCPT + [SP] + to) && NoCrLf(text)
    ensures var tx := GetOrCreate(s.active);
            Exchange(s, Commands.Rcpt(Verbs.Rcpt(to, None)), C250, text)
            == s.(active := Some(tx.(to := tx.to + [to])),
                  events := s.events + [SmtpCommand(Verbs.RCPT), SmtpCommandReply(Verbs.RCPT, C250)])
  {
    CommandThenReply(s, Commands.Rcpt(Verbs.Rcpt(to, None)), C250, text);
  }

  /** A DATA command accepted with 354 starts an empty body and switches to
      reading it. */
  lemma AcceptedData(s: Session, text: Bytes)
    requires s.mode == Mode.Command && s.down == [] && s.up == [] && s.nextReply.None? && s.pending == []
    requires NoCrLf(text)
    ensures Exchange(s, Commands.Data, C354, text)
            == s.(mode := Mode.Data, active := Some(GetOrCreate(s.active).(body := [])),
                  events := s.events + [SmtpCommand(Verbs.DATA), SmtpCommandReply(Verbs.DATA, C354)])
  {
    assert NoCrLf(Commands.Render(Commands.Data)) by {
      assert Commands.Render(Commands.Data) == Verbs.DATA;
    }
    CommandThenReply(s, Commands.Data, C354, text);
  }

  /** MAIL accepted, RCPT accepted, DATA accepted with 354: the transaction
      holds the sender and the recipient and the session reads a body. */
  lemma OpenTransaction(s: Session, from: Bytes, to: Bytes, text: Bytes)
    requires s.mode == Mode.Command && s.down == [] && s.up == [] && s.nextReply.None? && s.pending == []
    requires s.active.None?
    requires NoCrLf(Verbs.MAIL + [SP] + from) && NoCrLf(Verbs.RCPT + [SP] + to) && NoCrLf(text)
    ensures var s2 := Exchange(s, Commands.Mail(Verbs.Mail(from, None)), C250, text);
            var s4 := Exchange(s2, Commands.Rcpt(Verbs.Rcpt(to, None)), C250, text);
            var s6 := Exchange(s4, Commands.Data, C354, text);
            && s6.mode == Mode.Data
            && s6.active == Some(Transaction(from, [to], []))
            && s6.pending == [] && s6.down == [] && s6.up == [] && s6.nextReply.None?
            && s6.events == s.events + [SmtpCommand(Verbs.MAIL), SmtpCommandReply(Verbs.MAIL, C250),
                                        SmtpCommand(Verbs.RCPT), SmtpCommandReply(Verbs.RCPT, C250),
                                        SmtpCommand(Verbs.DATA), SmtpCommandReply(Verbs.DATA, C354)]
  {
    var e2 := s.events + [SmtpCommand(Verbs.MAIL), SmtpCommandReply(Verbs.MAIL, C250)];
    var e4 := e2 + [SmtpCommand(Verbs.RCPT), SmtpCommandReply(Verbs.RCPT, C250)];
    var e6 := e4 + [SmtpCommand(Verbs.DATA), SmtpCommandReply(Verbs.DATA, C354)];
    var s2 := s.(active := Some(Transaction(from, [], [])), events := e2);
    var s4 := s.(active := Some(Transaction(from, [to], [])), events := e4);
    AcceptedMail(s, from, text);
    assert Exchange(s, Commands.Mail(Verbs.Mail(from, None)), C250, text) == s2;
    AcceptedRcpt(s2, to, text);
    assert GetOrCreate(s2.active) == Transaction(from, [], []);
    assert Transaction(from, [], []).(to := [] + [to]) == Transaction(from, [to], []);
    assert s2.(active := s4.active, events := e4) == s4;
    assert Exchange(s2, Commands.Rcpt(Verbs.Rcpt(to, None)), C250, text) == s4;
    ThreePairs(s.events, SmtpCommand(Verbs.MAIL), SmtpCommandReply(Verbs.MAIL, C250),
               SmtpCommand(Verbs.RCPT), SmtpCommandReply(Verbs.RCPT, C250),
               SmtpCommand(Verbs.DATA), SmtpCommandReply(Verbs.DATA, C354));
    AcceptedData(s4, text);
  }

  /** Reports appended two at a time. */
  lemma ThreePairs<T>(es: seq<T>, a: T, b: T, c: T, d: T, e: T, f: T)
    ensures es + [a, b] + [c, d] + [e, f] == es + [a, b, c, d, e, f]
  {
  }

  /** The body: a line, then the terminator line, commits the transaction
      with that body; the 250 reply to the commit is reported and the session
      is back to commands with no transaction. */
  lemma SendBody(s: Session, tx: Transaction, line: Bytes, text: Bytes)
    requires s.mode == Mode.Data && s.active == Some(tx)
    requires s.down == [] && s.up == [] && s.nextReply.None? && s.pending == [] && s.nextBody == []
    requires NoCrLf(line) && line != [DOT] && NoCrLf(text)
    ensures var body := line + CRLF + [DOT] + CRLF;
            var r1 := OnDownstreamData(s, body, AcceptAll);
            var r2 := OnUpstreamData(r1.0, OneLine(C250, text), AcceptAll);
            && r1.1 == Done
            && r1.0 == s.(mode := Mode.Command, active := None,
                          pending := [PendingReply.Commit(tx.(body := body))],
                          events := s.events + [SmtpTransactionCommit])
            && r2.1 == Done
            && r2.0 == r1.0.(pending := [], events := r1.0.events + [SmtpTransactionCommitReply(C250)])
  {
    var body := line + CRLF + [DOT] + CRLF;
    BodyCommits(s, tx, line);
    var s3 := s.(mode := Mode.Command, active := None,
                 pending := [PendingReply.Commit(tx.(body := body))],
                 events := s.events + [SmtpTransactionCommit]);
    OneLineReply(s3, C250, text, AcceptAll);
  }

  /** The downstream half of the body exchange: the body line and the
      terminator line commit the transaction. */
  lemma BodyCommits(s: Session, tx: Transaction, line: Bytes)
    requires s.mode == Mode.Data && s.active == Some(tx)
    requires s.down == [] && s.pending == [] && s.nextBody == []
    requires NoCrLf(line) && line != [DOT]
    ensures var body := line + CRLF + [DOT] + CRLF;
            OnDownstreamData(s, body, AcceptAll)
            == (s.(mode := Mode.Command, active := None,
                   pending := [PendingReply.Commit(tx.(body := body))],
                   events := s.events + [SmtpTransactionCommit]), Done)
  {
    var body := line + CRLF + [DOT] + CRLF;
    var t := s.(down := s.down + body);
    OneLineBody(line);
    assert t.down == body;
    CommitStep(t, [], body, AcceptAll);
    var s3 := s.(mode := Mode.Command, active := None,
                 pending := [PendingReply.Commit(tx.(body := body))],
                 events := s.events + [SmtpTransactionCommit]);
    assert t.(down := [], nextBody := [], mode := Mode.Command, active := None,
              pending := t.pending + [PendingReply.Commit(GetOrCreate(t.active).(body := body))],
              events := t.events + [SmtpTransactionCommit]) == s3;
    DownstreamIdle(s3, AcceptAll);
    DownstreamOneTurn(t, s3, AcceptAll);
  }

  /** A single body line followed by the terminator line is a complete
      body, and the buffer is used up. */
  lemma OneLineBody(line: Bytes)
    requires NoCrLf(line) && line != [DOT]
    ensures var body := line + CRLF + [DOT] + CRLF;
            NextBody(body, []) == BodyStep([], [], Some(body))
  {
    var acc := line + CRLF;
    var tail := [DOT] + CRLF;
    BodyLayout(line, acc, tail);
    OtherLineJoinsBody(line, tail, []);
    DotEndsNonEmptyBody(acc, []);
  }

  /** How the bytes of `OneLineBody` decompose. */
  lemma BodyLayout(line: Bytes, acc: Bytes, tail: Bytes)
    requires acc == line + CRLF && tail == [DOT] + CRLF
    ensures line + CRLF + [DOT] + CRLF == line + CRLF + tail == acc + [DOT] + CRLF
    ensures [] + line + CRLF == acc && acc != []
    ensures tail == [DOT] + CRLF + []
  {
  }

  /** A complete body at the head of the buffer, reported without a failure,
      commits the active transaction (created if absent) with that body and
      switches back to commands. */
  lemma CommitStep(s: Session, rest: Bytes, body: Bytes, sink: Sink)
    requires s.mode == Mode.Data
    requires NextBody(s.down, s.nextBody) == BodyStep(rest, [], Some(body))
    requires sink(s.events, SmtpTransactionCommit)
    ensures DownstreamStep(s, sink)
            == Continue(s.(down := rest, nextBody := [], mode := Mode.Command, active := None,
                           pending := s.pending + [PendingReply.Commit(GetOrCreate(s.active).(body := body))],
                           events := s.events + [SmtpTransactionCommit]))
  {
  }

  /** STARTTLS accepted with 220: traffic is no longer interpreted, and bytes
      from either side, however malformed, change nothing afterwards. */
  lemma StartTlsEndsInspection(s: Session, text: Bytes, down: Bytes, up: Bytes)
    requires s.mode == Mode.Command && s.down == [] && s.up == [] && s.nextReply.None? && s.pending == []
    requires NoCrLf(text)
    ensures var s2 := OnUpstreamData(OnDownstreamData(s, Commands.Render(Commands.StartTls) + CRLF, AcceptAll).0,
                                     OneLine(C220, text), AcceptAll).0;
            && s2.mode == PassThrough
            && s2.events == s.events + [SmtpCommand(Verbs.STARTTLS), SmtpCommandReply(Verbs.STARTTLS, C220)]
            && OnDownstreamData(s2, down, AcceptAll) == (s2, Done)
            && OnUpstreamData(s2, up, AcceptAll) == (s2, Done)
  {
    assert NoCrLf(Commands.Render(Commands.StartTls)) by {
      assert Commands.Render(Commands.StartTls) == Verbs.STARTTLS;
    }
    CommandThenReply(s, Commands.StartTls, C220, text);
  }

  /** A rejected MAIL (550) leaves the transaction as it was. */
  lemma RejectedMailChangesNothing(s: Session, from: Bytes, text: Bytes)
    requires s.mode == Mode.Command && s.down == [] && s.up == [] && s.nextReply.None? && s.pending == []
    requires NoCrLf(Verbs.MAIL + [SP] + from) && NoCrLf(text)
    ensures var m := Commands.Mail(Verbs.Mail(from, None));
            var s2 := OnUpstreamData(OnDownstreamData(s, Commands.Render(m) + CRLF, AcceptAll).0,
                                     OneLine(C550, text), AcceptAll).0;
            s2 == s.(events := s.events + [SmtpCommand(Verbs.MAIL), SmtpCommandReply(Verbs.MAIL, C550)])
  {
    CommandThenReply(s, Commands.Mail(Verbs.Mail(from, None)), C550, text);
  }

  /** A command line whose verb is not UTF-8 is a parse error: it is not
      queued, the parse error is reported, and the session stops interpreting
      traffic unless that report is refused. */
  lemma InvalidVerbFallsBack(s: Session, line: Bytes, rest: Bytes, sink: Sink)
    requires (s.mode == Mode.Connect || s.mode == Mode.Command) && s.down == []
    requires NoCrLf(line) && !ValidUtf8(SplitAtSpace(line).0)
    ensures var r := OnDownstreamData(s, line + CRLF + rest, sink);
            && r == Fallback(s.(down := rest), sink)
            && r.0.pending == s.pending && r.0.down == rest
            && r.0.events == s.events + [SmtpParseError]
            && (r.1 == Done <==> sink(s.events, SmtpParseError))
            && r.0.mode == (if sink(s.events, SmtpParseError) then PassThrough else s.mode)
  {
    assert s.down + (line + CRLF + rest) == line + CRLF + rest;
    BadCommandFallsBack(s, line, rest, sink);
  }
}
