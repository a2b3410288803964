/** Properties of the session across calls: reply correlation, the
    absorbing pass-through mode, the mail-body framing, independence from
    how the byte stream is cut into chunks, and the invariant every
    operation keeps. */
module SessionProperties {

  import opened Wrappers
  import opened Bytes
  import opened LineReader
  import opened Replies
  import opened SmtpSession
  import Commands

  // ---------------------------------------------------------------------------
  // Reply correlation

  /** The sink calls that report a reply. */
  predicate IsReplyEvent(e: Event) {
    e.SmtpConnectReply? || e.SmtpCommandReply? || e.SmtpTransactionCommitReply?
  }

  /** The reply-reporting calls among `es`, in order. */
  function ReplyEvents(es: seq<Event>): (r: seq<Event>)
    ensures forall i :: 0 <= i < |r| ==> IsReplyEvent(r[i])
  {
    if |es| == 0 then []
    else (if IsReplyEvent(es[0]) then [es[0]] else []) + ReplyEvents(es[1..])
  }

  /** A reply-reporting call reports a reply to the pending entry `p`. */
  predicate Answers(e: Event, p: PendingReply) {
    match p
    case Connect => e.SmtpConnectReply?
    case Command(cmd) => e.SmtpCommandReply? && e.verb == Commands.Verb(cmd)
    case Commit(_) => e.SmtpTransactionCommitReply?
  }

  /** The reply reports `es` answer the entries `ps` one for one, in order. */
  predicate Correlated(es: seq<Event>, ps: seq<PendingReply>) {
    |es| == |ps| && forall i :: 0 <= i < |es| ==> Answers(es[i], ps[i])
  }

  /** Replies are correlated with requests first in, first out: draining the
      upstream buffer removes a prefix of the pending queue, and the reply
      reports it makes answer exactly that prefix, in order (the greeting with
      a connect reply, a command with a reply naming its verb, a commit with
      a commit reply). */
  lemma {:induction false} UpstreamFifo(s: Session, sink: Sink)
    ensures var r := DrainUpstream(s, sink).0;
            var k := |s.pending| - |r.pending|;
            Correlated(ReplyEvents(r.events[|s.events|..]), s.pending[..k])
    decreases |s.up|
  {
    match UpstreamStep(s, sink)
    case Stop(_) => FifoStops(s, sink);
    case Continue(s2) =>
      ContinueAnswersFront(s, sink);
      var r := DrainUpstream(s2, sink).0;
      assert DrainUpstream(s, sink).0 == r;
      UpstreamFifo(s2, sink);
      CorrelatedStep(s.events, ReplyEvent(s.pending[0], Code(FirstReply(s))), r.events,
                     s.pending[0], s2.pending, |s2.pending| - |r.pending|);
      assert |s.pending| - |r.pending| == |s2.pending| - |r.pending| + 1;
  }

  /** The first complete reply in the upstream buffer. */
  function FirstReply(s: Session): (r: Reply)
    requires NextReply(s.up, s.nextReply).result.Ok? && NextReply(s.up, s.nextReply).result.value.Some?
  {
    NextReply(s.up, s.nextReply).result.value.value
  }

  /** A loop turn that goes on has answered the front of the queue with the
      first complete reply, and reported it. */
  lemma ContinueAnswersFront(s: Session, sink: Sink)
    requires UpstreamStep(s, sink).Continue?
    ensures NextReply(s.up, s.nextReply).result.Ok? && NextReply(s.up, s.nextReply).result.value.Some?
    ensures var s2 := UpstreamStep(s, sink).next;
            && s.pending != [] && s.pending == [s.pending[0]] + s2.pending
            && s2.events == s.events + [ReplyEvent(s.pending[0], Code(FirstReply(s)))]
  {
  }

  /** The cases where draining stops at once, with one reply report at most. */
  lemma {:induction false} FifoStops(s: Session, sink: Sink)
    requires UpstreamStep(s, sink).Stop?
    ensures var r := DrainUpstream(s, sink).0;
            var k := |s.pending| - |r.pending|;
            Correlated(ReplyEvents(r.events[|s.events|..]), s.pending[..k])
  {
    var r := DrainUpstream(s, sink).0;
    assert r == UpstreamStep(s, sink).result.0;
    if s.mode == PassThrough {
      assert r.events[|s.events|..] == [];
    } else {
      var step := NextReply(s.up, s.nextReply);
      var s1 := s.(up := step.rest, nextReply := step.partial);
      if step.result.Err? {
        FallbackReportsNoReply(s1, sink);
      } else if step.result.value.None? {
        assert r.events[|s.events|..] == [];
      } else if s1.pending == [] {
        FallbackReportsNoReply(s1, sink);
      } else {
        var reply := step.result.value.value;
        var s2 := HandleReply(s1, reply, sink).0;
        ReportThenFallback(s, s2, ReplyEvent(s.pending[0], Code(reply)), r);
      }
    }
  }

  /** A reply reported, then a fall back: one report, answering the front. */
  lemma ReportThenFallback(s: Session, s2: Session, e: Event, r: Session)
    requires s.pending != [] && Answers(e, s.pending[0])
    requires s2.pending == s.pending[1..] && s2.events == s.events + [e]
    requires r.pending == s2.pending && r.events == s2.events + [SmtpParseError]
    ensures var k := |s.pending| - |r.pending|;
            Correlated(ReplyEvents(r.events[|s.events|..]), s.pending[..k])
  {
    assert r.events[|s.events|..] == [e, SmtpParseError];
    assert ReplyEvents([e, SmtpParseError]) == [e] + ReplyEvents([SmtpParseError]);
    assert ReplyEvents([SmtpParseError]) == [];
    assert s.pending[..1] == [s.pending[0]];
  }

  /** Falling back reports no reply and leaves the queue alone. */
  lemma FallbackReportsNoReply(s: Session, sink: Sink)
    ensures var r := Fallback(s, sink).0;
            r.pending == s.pending && ReplyEvents(r.events[|s.events|..]) == []
  {
    var r := Fallback(s, sink).0;
    assert r.events[|s.events|..] == [SmtpParseError];
    assert ReplyEvents([SmtpParseError]) == [] + ReplyEvents([]);
  }

  /** One more answered entry at the front extends a correlation. */
  lemma {:induction false} CorrelatedStep(pre: seq<Event>, e: Event, all: seq<Event>,
                                          front: PendingReply, rest: seq<PendingReply>, k: nat)
    requires Answers(e, front)
    requires pre + [e] <= all
    requires k <= |rest|
    requires Correlated(ReplyEvents(all[|pre| + 1..]), rest[..k])
    ensures Correlated(ReplyEvents(all[|pre|..]), ([front] + rest)[..k + 1])
  {
    var tail := all[|pre| + 1..];
    assert all[|pre|..] == [e] + tail;
    assert ([e] + tail)[1..] == tail;
    assert ReplyEvents([e] + tail) == [e] + ReplyEvents(tail);
    assert ([front] + rest)[..k + 1] == [front] + rest[..k];
  }

  /** A complete reply arriving with nothing pending is a protocol error: one
      parse-error report, no reply report, nothing removed from the queue,
      and the session passes traffic through from then on unless that report
      fails. */
  lemma {:induction false} ReplyWithNothingPending(s: Session, sink: Sink)
    requires s.mode != PassThrough && s.pending == []
    requires NextReply(s.up, s.nextReply).result.Ok? && NextReply(s.up, s.nextReply).result.value.Some?
    ensures var r := DrainUpstream(s, sink);
            && r.0.events == s.events + [SmtpParseError]
            && r.0.pending == []
            && (r.1 == Done <==> sink(s.events, SmtpParseError))
            && (r.0.mode == PassThrough <==> sink(s.events, SmtpParseError))
  {
    var step := NextReply(s.up, s.nextReply);
    var s1 := s.(up := step.rest, nextReply := step.partial);
    assert HandleReply(s1, step.result.value.value, sink) == (s1, Failed);
  }

  // ---------------------------------------------------------------------------
  // Pass-through is absorbing

  /** What the host can do to a session. */
  datatype Input = NewConnection | FromDownstream(data: Bytes) | FromUpstream(data: Bytes)

  function Step(s: Session, i: Input, sink: Sink): (r: (Session, Status)) {
    match i
    case NewConnection => OnNewConnection(s, sink)
    case FromDownstream(data) => OnDownstreamData(s, data, sink)
    case FromUpstream(data) => OnUpstreamData(s, data, sink)
  }

  /** A sequence of inputs applied in order; a failed call leaves the session
      in the state it reached and the host carries on. */
  function Run(s: Session, inputs: seq<Input>, sink: Sink): (t: Session)
    decreases |inputs|
  {
    if |inputs| == 0 then s
    else Run(Step(s, inputs[0], sink).0, inputs[1..], sink)
  }

  /** Once in `PassThrough`, a session stays there whatever arrives, and data
      in either direction changes nothing at all: no buffering, no report. */
  lemma {:induction false} PassThroughAbsorbing(s: Session, inputs: seq<Input>, sink: Sink)
    requires s.mode == PassThrough
    ensures Run(s, inputs, sink).mode == PassThrough
    ensures (forall i :: 0 <= i < |inputs| ==> !inputs[i].NewConnection?) ==> Run(s, inputs, sink) == s
    decreases |inputs|
  {
    if |inputs| > 0 {
      var s1 := Step(s, inputs[0], sink).0;
      PassThroughAbsorbing(s1, inputs[1..], sink);
      if forall i :: 0 <= i < |inputs| ==> !inputs[i].NewConnection? {
        assert !inputs[0].NewConnection?;
        assert forall i :: 0 <= i < |inputs[1..]| ==> !inputs[1..][i].NewConnection? by {
          forall i | 0 <= i < |inputs[1..]|
            ensures !inputs[1..][i].NewConnection?
          {
            assert inputs[1..][i] == inputs[i + 1];
          }
        }
      }
    }
  }

  // ---------------------------------------------------------------------------
  // Mail-body framing

  /** A `.` line ends a body that already holds something; the terminator line
      is kept at the end of the body and the transaction's buffer is empty
      again. */
  lemma {:induction false} DotEndsNonEmptyBody(acc: Bytes, rest: Bytes)
    requires acc != []
    ensures NextBody([DOT] + CRLF + rest, acc) == BodyStep(rest, [], Some(acc + [DOT] + CRLF))
  {
    NextLineOfFramed([DOT], rest);
  }

  /** A `.` line at the very start of a body does not end it: it becomes the
      first line of the body, so an empty body is never terminated. */
  lemma {:induction false} DotDoesNotEndEmptyBody(rest: Bytes)
    ensures NextBody([DOT] + CRLF + rest, []) == NextBody(rest, [DOT] + CRLF)
  {
    NextLineOfFramed([DOT], rest);
    assert [] + [DOT] + CRLF == [DOT] + CRLF;
  }

  /** Any other complete line joins the body together with its terminator. */
  lemma {:induction false} OtherLineJoinsBody(line: Bytes, rest: Bytes, acc: Bytes)
    requires NoCrLf(line)
    requires line != [DOT]
    ensures NextBody(line + CRLF + rest, acc) == NextBody(rest, acc + line + CRLF)
  {
    NextLineOfFramed(line, rest);
  }

  /** When a body is complete in Data mode and the commit is reported, the
      transaction joins the queue with that body, after whatever was pending,
      and the commit is the first report made. */
  lemma {:induction false} CommitCarriesBody(s: Session, sink: Sink)
    requires s.mode == Mode.Data
    requires NextBody(s.down, s.nextBody).body.Some?
    ensures var r := DrainDownstream(s, sink).0;
            var tx := GetOrCreate(s.active).(body := NextBody(s.down, s.nextBody).body.value);
            && |r.pending| > |s.pending| && r.pending[|s.pending|] == PendingReply.Commit(tx)
            && |r.events| > |s.events| && r.events[|s.events|] == SmtpTransactionCommit
  {
    var step := NextBody(s.down, s.nextBody);
    var tx := GetOrCreate(s.active).(body := step.body.value);
    var s1 := s.(down := step.rest, nextBody := step.acc);
    var s2 := s1.(active := None, pending := s1.pending + [PendingReply.Commit(tx)]);
    var s3 := s2.(events := s2.events + [SmtpTransactionCommit]);
    var r := DrainDownstream(s, sink).0;
    if sink(s2.events, SmtpTransactionCommit) {
      var s4 := s3.(mode := Mode.Command);
      assert r == DrainDownstream(s4, sink).0;
      assert s4.pending <= r.pending && s4.events <= r.events;
    }
  }

  // ---------------------------------------------------------------------------
  // Chunk independence

  /** Reading a body from a longer buffer: an unfinished body keeps
      accumulating from where the shorter buffer stopped, a finished one is
      the same body with the extra bytes left over. */
  lemma {:induction false} NextBodyExtend(buf: Bytes, acc: Bytes, more: Bytes)
    ensures var r := NextBody(buf, acc);
            && (r.body.None? ==> NextBody(buf + more, acc) == NextBody(r.rest + more, r.acc))
            && (r.body.Some? ==> NextBody(buf + more, acc) == r.(rest := r.rest + more))
    decreases |buf|
  {
    match NextLine(buf)
    case None =>
    case Some((line, rest)) =>
      NextLineExtend(buf, more);
      if !(acc != [] && line == [DOT]) {
        NextBodyExtend(rest, acc + line + CRLF, more);
      }
  }

  /** Reading replies from a longer buffer: with no complete reply yet the
      reading resumes where the shorter buffer stopped, otherwise it gives
      the same outcome with the extra bytes left over. */
  lemma {:induction false} NextReplyExtend(buf: Bytes, partial: Option<Reply>, more: Bytes)
    ensures var r := NextReply(buf, partial);
            && (r.result == Ok(None) ==> NextReply(buf + more, partial) == NextReply(r.rest + more, r.partial))
            && (r.result != Ok(None) ==> NextReply(buf + more, partial) == r.(rest := r.rest + more))
    decreases |buf|
  {
    match NextLine(buf)
    case None =>
    case Some((text, rest)) =>
      NextLineExtend(buf, more);
      match ParseReplyLine(text)
      case Err =>
      case Ok(line) =>
        var reply := Extend(partial, line);
        if !line.last {
          NextReplyExtend(rest, Some(reply), more);
        }
  }

  /** Two sessions that differ at most in one buffer. */
  predicate SameButDown(a: Session, b: Session) {
    a.(down := b.down) == b
  }

  predicate SameButUp(a: Session, b: Session) {
    a.(up := b.up) == b
  }

  /** One downstream loop turn on a longer buffer: a turn that goes on goes
      on the same way; one that fails, or stops after interpretation ended,
      stops the same way; one that stops waiting for more bytes resumes where
      it stopped. */
  lemma DownstreamStepExtend(t: Session, more: Bytes, sink: Sink)
    ensures StepExtends(t, more, sink)
  {
    if t.mode == Mode.Data {
      BodyStepExtend(t, more, sink);
    } else if t.mode != PassThrough {
      LineStepExtend(t, more, sink);
    }
  }

  /** The four cases of `DownstreamStepExtend`. */
  predicate StepExtends(t: Session, more: Bytes, sink: Sink) {
    var n := DownstreamStep(t, sink);
    var n' := DownstreamStep(t.(down := t.down + more), sink);
    && (n.Continue? ==> n' == Continue(n.next.(down := n.next.down + more)))
    && (n.Stop? && n.result.1 == Failed ==> n' == Stop((n.result.0.(down := n.result.0.down + more), Failed)))
    && (n.Stop? && n.result.1 == Done && n.result.0.mode == PassThrough ==>
          n' == Stop((n.result.0.(down := n.result.0.down + more), Done)))
    && (n.Stop? && n.result.1 == Done && n.result.0.mode != PassThrough ==>
          n' == DownstreamStep(n.result.0.(down := n.result.0.down + more), sink))
  }

  /** `DownstreamStepExtend` while reading a body. */
  lemma BodyStepExtend(t: Session, more: Bytes, sink: Sink)
    requires t.mode == Mode.Data
    ensures StepExtends(t, more, sink)
  {
    NextBodyExtend(t.down, t.nextBody, more);
    if NextBody(t.down, t.nextBody).body.Some? {
      CommitStepExtend(t, more, sink);
    } else {
      var r := NextBody(t.down, t.nextBody);
      var u := t.(down := r.rest, nextBody := r.acc);
      assert DownstreamStep(t, sink) == Stop((u, Done));
      assert t.(down := t.down + more).(down := r.rest + more, nextBody := r.acc) == u.(down := u.down + more);
    }
  }

  /** A body that is complete in the shorter buffer commits the same way. */
  lemma CommitStepExtend(t: Session, more: Bytes, sink: Sink)
    requires t.mode == Mode.Data
    requires NextBody(t.down, t.nextBody).body.Some?
    requires NextBody(t.down + more, t.nextBody) == NextBody(t.down, t.nextBody).(rest := NextBody(t.down, t.nextBody).rest + more)
    ensures StepExtends(t, more, sink)
  {
    var r := NextBody(t.down, t.nextBody);
    CommitIgnoresDown(t.(down := r.rest, nextBody := r.acc), r.body.value, sink, r.rest + more);
  }

  /** Committing never looks at the downstream buffer. */
  lemma CommitIgnoresDown(s: Session, body: Bytes, sink: Sink, down: Bytes)
    ensures var n := CommitBody(s, body, sink);
            CommitBody(s.(down := down), body, sink)
            == if n.Stop? then Stop((n.result.0.(down := down), n.result.1)) else Continue(n.next.(down := down))
  {
  }

  /** `DownstreamStepExtend` while reading commands. */
  lemma LineStepExtend(t: Session, more: Bytes, sink: Sink)
    requires t.mode == Mode.Connect || t.mode == Mode.Command
    ensures StepExtends(t, more, sink)
  {
    if NextLine(t.down).Some? {
      NextLineExtend(t.down, more);
    }
  }

  /** Draining, then receiving more bytes, ends where draining everything at
      once ends: same status, same session, except that bytes arriving after
      traffic stopped being interpreted are dropped rather than kept. A drain
      that fails fails the same way on the longer buffer, keeping the extra
      bytes unread. */
  lemma {:induction false} DrainDownstreamChunks(t: Session, more: Bytes, sink: Sink)
    ensures var u := DrainDownstream(t, sink);
            var w := DrainDownstream(t.(down := t.down + more), sink);
            && (u.1 == Failed ==> w == (u.0.(down := u.0.down + more), Failed))
            && (u.1 == Done ==>
                  var v := OnDownstreamData(u.0, more, sink);
                  && v.1 == w.1 && SameButDown(v.0, w.0)
                  && (v.0.mode != PassThrough ==> v.0 == w.0))
    decreases |t.down|
  {
    DownstreamStepExtend(t, more, sink);
    match DownstreamStep(t, sink)
    case Continue(s2) => DrainDownstreamChunks(s2, more, sink);
    case Stop(_) =>
  }

  /** Client bytes delivered in two chunks leave the session as delivering
      them at once does, at any cut point, except for bytes dropped after
      interpretation stopped. When the first chunk fails, delivering both at
      once fails the same way with the second chunk left buffered. */
  lemma {:induction false} DownstreamChunking(s: Session, a: Bytes, b: Bytes, sink: Sink)
    ensures var u := OnDownstreamData(s, a, sink);
            var w := OnDownstreamData(s, a + b, sink);
            && (u.1 == Failed ==> w == (u.0.(down := u.0.down + b), Failed))
            && (u.1 == Done ==>
                  var v := OnDownstreamData(u.0, b, sink);
                  && v.1 == w.1 && SameButDown(v.0, w.0)
                  && (v.0.mode != PassThrough ==> v.0 == w.0))
  {
    if s.mode != PassThrough {
      var t := s.(down := s.down + a);
      var t2 := s.(down := s.down + (a + b));
      assert t2 == t.(down := t.down + b);
      DrainDownstreamChunks(t, b, sink);
    }
  }

  /** `HandleReply` never looks at the upstream buffer. */
  lemma HandleReplyIgnoresUp(s: Session, reply: Reply, sink: Sink, up: Bytes)
    ensures var r := HandleReply(s, reply, sink);
            HandleReply(s.(up := up), reply, sink) == (r.0.(up := up), r.1)
  {
    if s.pending != [] && s.pending[0].Command? {
      var cmd := s.pending[0].cmd;
      var s2 := s.(pending := s.pending[1..], events := s.events + [ReplyEvent(s.pending[0], Code(reply))]);
      assert ApplyCommandReply(s2.(up := up), cmd, Code(reply)) == ApplyCommandReply(s2, cmd, Code(reply)).(up := up);
    }
  }

  /** The upstream counterpart of `DownstreamStepExtend`. */
  lemma UpstreamStepExtend(t: Session, more: Bytes, sink: Sink)
    ensures var n := UpstreamStep(t, sink);
            var n' := UpstreamStep(t.(up := t.up + more), sink);
            && (n.Continue? ==> n' == Continue(n.next.(up := n.next.up + more)))
            && (n.Stop? && n.result.1 == Failed ==> n' == Stop((n.result.0.(up := n.result.0.up + more), Failed)))
            && (n.Stop? && n.result.1 == Done && n.result.0.mode == PassThrough ==>
                  n' == Stop((n.result.0.(up := n.result.0.up + more), Done)))
            && (n.Stop? && n.result.1 == Done && n.result.0.mode != PassThrough ==>
                  n' == UpstreamStep(n.result.0.(up := n.result.0.up + more), sink))
  {
    if t.mode != PassThrough {
      NextReplyExtend(t.up, t.nextReply, more);
      var step := NextReply(t.up, t.nextReply);
      if step.result.Ok? && step.result.value.Some? {
        var s1 := t.(up := step.rest, nextReply := step.partial);
        HandleReplyIgnoresUp(s1, step.result.value.value, sink, step.rest + more);
      }
    }
  }

  /** The upstream counterpart of `DrainDownstreamChunks`. */
  lemma DrainUpstreamChunks(t: Session, more: Bytes, sink: Sink)
    ensures var u := DrainUpstream(t, sink);
            var w := DrainUpstream(t.(up := t.up + more), sink);
            && (u.1 == Failed ==> w == (u.0.(up := u.0.up + more), Failed))
            && (u.1 == Done ==>
                  var v := OnUpstreamData(u.0, more, sink);
                  && v.1 == w.1 && SameButUp(v.0, w.0)
                  && (v.0.mode != PassThrough ==> v.0 == w.0))
  {
    if DrainUpstream(t, sink).1 == Failed {
      DrainUpstreamFailedChunks(t, more, sink);
    } else {
      DrainUpstreamDoneChunks(t, more, sink);
    }
  }

  /** `DrainUpstreamChunks` for a drain that fails. */
  lemma {:induction false} DrainUpstreamFailedChunks(t: Session, more: Bytes, sink: Sink)
    requires DrainUpstream(t, sink).1 == Failed
    ensures var u := DrainUpstream(t, sink);
            DrainUpstream(t.(up := t.up + more), sink) == (u.0.(up := u.0.up + more), Failed)
    decreases |t.up|
  {
    UpstreamStepExtend(t, more, sink);
    match UpstreamStep(t, sink)
    case Continue(s2) => DrainUpstreamFailedChunks(s2, more, sink);
    case Stop(_) =>
  }

  /** `DrainUpstreamChunks` for a drain that does not fail. */
  lemma {:induction false} DrainUpstreamDoneChunks(t: Session, more: Bytes, sink: Sink)
    requires DrainUpstream(t, sink).1 == Done
    ensures var v := OnUpstreamData(DrainUpstream(t, sink).0, more, sink);
            var w := DrainUpstream(t.(up := t.up + more), sink);
            && v.1 == w.1 && SameButUp(v.0, w.0)
            && (v.0.mode != PassThrough ==> v.0 == w.0)
    decreases |t.up|
  {
    var t' := t.(up := t.up + more);
    UpstreamStepExtend(t, more, sink);
    match UpstreamStep(t, sink)
    case Continue(s2) =>
      DrainUpstreamDoneChunks(s2, more, sink);
      assert DrainUpstream(t, sink) == DrainUpstream(s2, sink);
      assert DrainUpstream(t', sink) == DrainUpstream(s2.(up := s2.up + more), sink);
    case Stop(r) =>
      assert DrainUpstream(t, sink) == r;
      if r.0.mode != PassThrough {
        SameStepSameDrain(t', r.0.(up := r.0.up + more), sink);
      }
  }

  /** The upstream loop is determined by its first turn. */
  lemma SameStepSameDrain(a: Session, b: Session, sink: Sink)
    requires UpstreamStep(a, sink) == UpstreamStep(b, sink)
    ensures DrainUpstream(a, sink) == DrainUpstream(b, sink)
  {
  }

  /** The upstream counterpart of `DownstreamChunking`. */
  lemma {:induction false} UpstreamChunking(s: Session, a: Bytes, b: Bytes, sink: Sink)
    ensures var u := OnUpstreamData(s, a, sink);
            var w := OnUpstreamData(s, a + b, sink);
            && (u.1 == Failed ==> w == (u.0.(up := u.0.up + b), Failed))
            && (u.1 == Done ==>
                  var v := OnUpstreamData(u.0, b, sink);
                  && v.1 == w.1 && SameButUp(v.0, w.0)
                  && (v.0.mode != PassThrough ==> v.0 == w.0))
  {
    if s.mode != PassThrough {
      var t := s.(up := s.up + a);
      var t2 := s.(up := s.up + (a + b));
      assert t2 == t.(up := t.up + b);
      DrainUpstreamChunks(t, b, sink);
    }
  }

  // ---------------------------------------------------------------------------
  // Fallback and sink failures

  /** A complete command line that does not parse ends interpretation: the
      line is consumed and the session falls back, whatever follows it. */
  lemma BadCommandFallsBack(s: Session, line: Bytes, rest: Bytes, sink: Sink)
    requires s.mode == Mode.Connect || s.mode == Mode.Command
    requires NoCrLf(line) && Commands.ParseCommand(line).Err?
    ensures DownstreamStep(s.(down := line + CRLF + rest), sink) == Stop(Fallback(s.(down := rest), sink))
    ensures DrainDownstream(s.(down := line + CRLF + rest), sink) == Fallback(s.(down := rest), sink)
  {
    NextLineOfFramed(line, rest);
  }

  /** A command whose report the sink refuses is consumed, reported and not
      queued; the failure is handed back and the rest stays buffered. */
  lemma CommandRefused(s: Session, line: Bytes, rest: Bytes, cmd: Commands.Command, sink: Sink)
    requires s.mode == Mode.Connect || s.mode == Mode.Command
    requires NoCrLf(line) && Commands.ParseCommand(line) == Ok(cmd)
    requires !sink(s.events, SmtpCommand(Commands.Verb(cmd)))
    ensures DrainDownstream(s.(down := line + CRLF + rest), sink)
            == (s.(down := rest, events := s.events + [SmtpCommand(Commands.Verb(cmd))]), Failed)
  {
    NextLineOfFramed(line, rest);
  }

  /** A mail body whose commit report the sink refuses is still committed:
      the transaction ends and its reply is awaited, the failure is handed
      back and the session stays in `Data`. */
  lemma CommitRefused(s: Session, sink: Sink)
    requires s.mode == Mode.Data && NextBody(s.down, s.nextBody).body.Some?
    requires !sink(s.events, SmtpTransactionCommit)
    ensures var st := NextBody(s.down, s.nextBody);
            var tx := GetOrCreate(s.active).(body := st.body.value);
            DrainDownstream(s, sink)
            == (s.(down := st.rest, nextBody := [], active := None,
                   pending := s.pending + [PendingReply.Commit(tx)],
                   events := s.events + [SmtpTransactionCommit]), Failed)
  {
    var st := NextBody(s.down, s.nextBody);
    var n := CommitBody(s.(down := st.rest, nextBody := st.acc), st.body.value, sink);
    assert n.Stop?;
  }

  /** A complete reply line that does not parse ends interpretation: the line
      is consumed and the session falls back, with the reply being assembled
      kept. */
  lemma BadReplyLineFallsBack(s: Session, text: Bytes, rest: Bytes, sink: Sink)
    requires s.mode != PassThrough
    requires NoCrLf(text) && ParseReplyLine(text).Err?
    ensures UpstreamStep(s.(up := text + CRLF + rest), sink) == Stop(Fallback(s.(up := rest), sink))
    ensures DrainUpstream(s.(up := text + CRLF + rest), sink) == Fallback(s.(up := rest), sink)
  {
    NextLineOfFramed(text, rest);
  }

  /** After any number of continuation lines, a line that does not parse is
      consumed and reported, and the reply being assembled holds the
      continuation lines read before it. */
  lemma {:induction false} BadLineAfterContinuations(partial: Option<Reply>, ls: seq<ReplyLine>, text: Bytes, rest: Bytes)
    requires forall i :: 0 <= i < |ls| ==> !ls[i].last && NoCrLf(ls[i].text)
    requires NoCrLf(text) && ParseReplyLine(text).Err?
    ensures NextReply(WireLines(ls) + (text + CRLF + rest), partial) == ReplyStep(rest, ExtendAll(partial, ls), Err)
    decreases |ls|
  {
    if |ls| == 0 {
      assert WireLines(ls) + (text + CRLF + rest) == text + CRLF + rest;
      NextLineOfFramed(text, rest);
    } else {
      var l := ls[0];
      var tail := WireLines(ls[1..]) + (text + CRLF + rest);
      WireLinesCons(ls, text + CRLF + rest);
      ReadWireLine(partial, l, tail);
      BadLineAfterContinuations(Some(Extend(partial, l)), ls[1..], text, rest);
    }
  }

  /** A complete reply whose report the sink refuses makes the session fall
      back: the reply is reported, then the parse error; the pending entry is
      consumed; interpretation ends exactly when the parse-error report is
      accepted, and a refused parse-error report is handed back. */
  lemma RefusedReplyFallsBack(s: Session, rest: Bytes, partial: Option<Reply>, reply: Reply, sink: Sink)
    requires s.mode != PassThrough && s.pending != []
    requires NextReply(s.up, s.nextReply) == ReplyStep(rest, partial, Ok(Some(reply)))
    requires !sink(s.events, ReplyEvent(s.pending[0], Code(reply)))
    ensures var e := ReplyEvent(s.pending[0], Code(reply));
            var r := DrainUpstream(s, sink);
            && r.0.events == s.events + [e, SmtpParseError]
            && r.0.pending == s.pending[1..]
            && r.0.up == rest && r.0.nextReply == partial
            && (r.1 == Done <==> sink(s.events + [e], SmtpParseError))
            && (r.0.mode == PassThrough <==> sink(s.events + [e], SmtpParseError))
  {
    var e := ReplyEvent(s.pending[0], Code(reply));
    var h := HandleReply(s.(up := rest, nextReply := partial), reply, sink);
    assert h.1 == Failed && h.0.events == s.events + [e];
    assert h.0.pending == s.pending[1..] && h.0.up == rest && h.0.nextReply == partial;
    var f := Fallback(h.0, sink);
    assert UpstreamStep(s, sink) == Stop(f);
    assert DrainUpstream(s, sink) == f;
    AppendTwo(s.events, e, SmtpParseError);
  }

  /** Appending two elements one at a time appends both. */
  lemma AppendTwo<T>(a: seq<T>, x: T, y: T)
    ensures (a + [x]) + [y] == a + [x, y]
  {
  }

  // ---------------------------------------------------------------------------
  // The session invariant

  /** Every host call keeps the session invariant. */
  lemma StepKeepsValid(s: Session, i: Input, sink: Sink)
    requires Valid(s)
    ensures Valid(Step(s, i, sink).0)
  {
  }

  /** Any sequence of host calls from a valid session keeps the invariant. */
  lemma {:induction false} RunKeepsValid(s: Session, inputs: seq<Input>, sink: Sink)
    requires Valid(s)
    ensures Valid(Run(s, inputs, sink))
    decreases |inputs|
  {
    if |inputs| > 0 {
      StepKeepsValid(s, inputs[0], sink);
      RunKeepsValid(Step(s, inputs[0], sink).0, inputs[1..], sink);
    }
  }

  /** Every session the host can reach from a new one is valid: a reply being
      assembled never already holds its last line, and a body being
      accumulated always ends at a line boundary. */
  lemma ReachableIsValid(inputs: seq<Input>, sink: Sink)
    ensures Valid(Run(Initial, inputs, sink))
  {
    RunKeepsValid(Initial, inputs, sink);
  }

  // ---------------------------------------------------------------------------
  // Reading a reply back from the wire

  /** The lines of one reply on the wire: every line but the last says more
      follow, the last says it is the last, and no text holds a line
      terminator. */
  predicate IsWireReply(ls: seq<ReplyLine>) {
    && |ls| >= 1
    && ls[|ls| - 1].last
    && (forall i :: 0 <= i < |ls| - 1 ==> !ls[i].last)
    && (forall i :: 0 <= i < |ls| ==> NoCrLf(ls[i].text))
  }

  /** A wire reply is its first line followed by nothing, when that line is
      the last, or by the wire reply of the remaining lines. */
  lemma WireReplyRest(ls: seq<ReplyLine>)
    requires IsWireReply(ls)
    ensures NoCrLf(ls[0].text)
    ensures ls[0].last ==> |ls| == 1
    ensures !ls[0].last ==> IsWireReply(ls[1..])
  {
    if !ls[0].last {
      var t := ls[1..];
      forall i | 0 <= i < |t| - 1
        ensures !t[i].last
      {
        assert t[i] == ls[i + 1];
      }
      forall i | 0 <= i < |t|
        ensures NoCrLf(t[i].text)
      {
        assert t[i] == ls[i + 1];
      }
    }
  }

  /** The lines, each formatted and terminated. */
  function WireLines(ls: seq<ReplyLine>): (wire: Bytes)
    decreases |ls|
  {
    if |ls| == 0 then [] else FormatReplyLine(ls[0]) + CRLF + WireLines(ls[1..])
  }

  /** The wire form of lines, followed by anything, starts with the first
      line formatted and terminated. */
  lemma WireLinesCons(ls: seq<ReplyLine>, rest: Bytes)
    requires |ls| > 0
    ensures WireLines(ls) + rest == FormatReplyLine(ls[0]) + CRLF + (WireLines(ls[1..]) + rest)
  {
  }

  /** A formatted line holds a terminator only if its text does. */
  lemma FormattedLineNoCrLf(l: ReplyLine)
    requires NoCrLf(l.text)
    ensures NoCrLf(FormatReplyLine(l))
  {
    var b := FormatReplyLine(l);
    var head := FormatReplyCode(l.code) + [if l.last then SP else HYPHEN];
    assert b == head + l.text;
    forall i | 0 <= i < |b|
      ensures !CrLfAt(b, i)
    {
      if i >= 4 {
        assert b[i] == l.text[i - 4];
        if i + 1 < |b| {
          assert b[i + 1] == l.text[i - 3];
          assert !CrLfAt(l.text, i - 4);
        }
      }
    }
  }

  /** Reading one formatted line: the reply being assembled gains it, and is
      complete if the line says it is the last. */
  lemma ReadWireLine(partial: Option<Reply>, l: ReplyLine, tail: Bytes)
    requires NoCrLf(l.text)
    ensures NextReply(FormatReplyLine(l) + CRLF + tail, partial)
            == if l.last then ReplyStep(tail, None, Ok(Some(Extend(partial, l))))
               else NextReply(tail, Some(Extend(partial, l)))
  {
    FormattedLineNoCrLf(l);
    NextLineOfFramed(FormatReplyLine(l), tail);
    ParseFormatReplyLine(l);
  }

  /** The reply being assembled after each of the lines in turn. */
  function ExtendAll(p: Option<Reply>, ls: seq<ReplyLine>): (r: Option<Reply>)
    decreases |ls|
  {
    if |ls| == 0 then p else ExtendAll(Some(Extend(p, ls[0])), ls[1..])
  }

  /** Extending line by line appends the lines in order. */
  lemma {:induction false} ExtendAllLines(p: Option<Reply>, ls: seq<ReplyLine>)
    requires p.Some? || |ls| > 0
    ensures ExtendAll(p, ls).Some?
    ensures Lines(ExtendAll(p, ls).value) == PartialLines(p) + ls
    decreases |ls|
  {
    if |ls| > 0 {
      var p2 := Some(Extend(p, ls[0]));
      ExtendAllLines(p2, ls[1..]);
      assert PartialLines(p2) == PartialLines(p) + [ls[0]];
      AppendHead(PartialLines(p), ls);
    }
  }

  /** Appending the head of a sequence and then its tail appends it whole. */
  lemma AppendHead<T>(a: seq<T>, ls: seq<T>)
    requires |ls| > 0
    ensures (a + [ls[0]]) + ls[1..] == a + ls
  {
    assert [ls[0]] + ls[1..] == ls;
  }

  /** The code of a reply assembled line by line is that of its first line,
      whatever the later lines say. */
  lemma ExtendAllCode(p: Option<Reply>, ls: seq<ReplyLine>)
    requires p.Some? || |ls| > 0
    ensures ExtendAll(p, ls).Some?
    ensures p.Some? ==> Code(ExtendAll(p, ls).value) == Code(p.value)
    ensures p.None? ==> Code(ExtendAll(p, ls).value) == ls[0].code
  {
    ExtendAllLines(p, ls);
    var lines := Lines(ExtendAll(p, ls).value);
    assert Code(ExtendAll(p, ls).value) == lines[0].code;
    if p.Some? {
      assert lines[0] == Lines(p.value)[0];
    } else {
      assert lines[0] == ls[0];
    }
  }

  /** The reader takes a wire reply line by line and stops right after its
      last line. */
  lemma {:induction false} ReadWireLines(partial: Option<Reply>, ls: seq<ReplyLine>, rest: Bytes)
    requires IsWireReply(ls)
    ensures NextReply(WireLines(ls) + rest, partial) == ReplyStep(rest, None, Ok(ExtendAll(partial, ls)))
    decreases |ls|
  {
    var l := ls[0];
    WireReplyRest(ls);
    var tail := WireLines(ls[1..]) + rest;
    WireLinesCons(ls, rest);
    ReadWireLine(partial, l, tail);
    if l.last {
      assert tail == rest;
      assert ExtendAll(partial, ls) == ExtendAll(Some(Extend(partial, l)), []);
    } else {
      ReadWireLines(Some(Extend(partial, l)), ls[1..], rest);
    }
  }

  /** Reading a reply from the wire is the inverse of writing it: the reply
      comes back complete, holding the lines assembled so far followed by the
      lines sent, with nothing consumed beyond its last line. */
  lemma ReadWireReply(partial: Option<Reply>, ls: seq<ReplyLine>, rest: Bytes)
    requires IsWireReply(ls)
    ensures var st := NextReply(WireLines(ls) + rest, partial);
            && st.rest == rest && st.partial.None?
            && st.result.Ok? && st.result.value.Some?
            && Lines(st.result.value.value) == PartialLines(partial) + ls
  {
    ReadWireLines(partial, ls, rest);
    ExtendAllLines(partial, ls);
  }
}
