/** The command parser: one complete line (terminator already removed) becomes
    a typed command. The line is split at its first space; the verb is
    checked to be UTF-8 and upper-cased in ASCII, then dispatched over the
    closed table of twelve verbs; anything else is an unknown command. */
module Commands {

  import opened Wrappers
  import opened Bytes
  import Verbs
  import UnknownCommand

  datatype Command =
    | Helo(helo: Verbs.Helo)
    | Ehlo(ehlo: Verbs.Ehlo)
    | Mail(mail: Verbs.Mail)
    | Rcpt(rcpt: Verbs.Rcpt)
    | Data
    | Rset
    | Vrfy(vrfy: Verbs.Vrfy)
    | Expn(expn: Verbs.Expn)
    | Help(help: Verbs.Help)
    | Noop(noop: Verbs.Noop)
    | Quit
    | StartTls
    | Unknown(unknown: UnknownCommand.Unknown)

  /** `Command::verb`: the table verb of a known command, the stored
      upper-cased verb of an unknown one. */
  function Verb(c: Command): (v: Bytes)
    ensures !c.Unknown? ==> Verbs.IsKnownVerb(v)
  {
    match c
    case Helo(_) => Verbs.HELO
    case Ehlo(_) => Verbs.EHLO
    case Mail(_) => Verbs.MAIL
    case Rcpt(_) => Verbs.RCPT
    case Data => Verbs.DATA
    case Rset => Verbs.RSET
    case Vrfy(_) => Verbs.VRFY
    case Expn(_) => Verbs.EXPN
    case Help(_) => Verbs.HELP
    case Noop(_) => Verbs.NOOP
    case Quit => Verbs.QUIT
    case StartTls => Verbs.STARTTLS
    case Unknown(u) => UnknownCommand.UnknownVerb(u)
  }

  /** The commands whose verb is the whole command: their arguments are
      dropped by the parser. */
  predicate IsArgumentless(c: Command) {
    c.Data? || c.Rset? || c.Quit? || c.StartTls?
  }

  /** The argument bytes a command keeps (empty for an absent optional
      argument and for argument-less commands). */
  function Args(c: Command): (args: Bytes) {
    match c
    case Helo(h) => h.domain
    case Ehlo(e) => e.domain
    case Mail(m) => m.from
    case Rcpt(r) => r.to
    case Vrfy(v) => v.userOrMailbox
    case Expn(e) => e.mailingList
    case Help(h) => if h.commandName.Some? then h.commandName.value else []
    case Noop(n) => if n.comment.Some? then n.comment.value else []
    case Unknown(u) => u.args
    case Data => []
    case Rset => []
    case Quit => []
    case StartTls => []
  }

  /** `Command::try_from`. The only failure is a verb that is not UTF-8; the
      argument bytes are never checked. The verb of the result is the
      upper-cased verb of the line, the result is an unknown command exactly
      when that verb is outside the table, and a command that keeps its
      arguments keeps exactly the bytes after the first space. */
  function ParseCommand(line: Bytes): (r: Result<Command>)
    ensures r.Err? <==> !ValidUtf8(SplitAtSpace(line).0)
    ensures r.Ok? ==> (r.value.Unknown? <==> !Verbs.IsKnownVerb(ToAsciiUpper(SplitAtSpace(line).0)))
  {
    var (verb, args) := SplitAtSpace(line);
    if !ValidUtf8(verb) then Err
    else Dispatch(ToAsciiUpper(verb), args, line)
  }

  /** The verb table of `Command::try_from`: `v` is the upper-cased verb,
      `args` the bytes after the first space, `line` the whole line (which
      the unknown-command parser splits again). A verb of the table gives its
      own variant carrying `args`; any other verb defers to the
      unknown-command parser. */
  function Dispatch(v: Bytes, args: Bytes, line: Bytes): (r: Result<Command>)
    ensures Verbs.IsKnownVerb(v) ==> r.Ok? && !r.value.Unknown? && Verb(r.value) == v
    ensures Verbs.IsKnownVerb(v) && !IsArgumentless(r.value) ==> Args(r.value) == args
    ensures !Verbs.IsKnownVerb(v) ==>
              && (r.Ok? <==> UnknownCommand.ParseUnknown(line).Ok?)
              && (r.Ok? ==> r.value == Unknown(UnknownCommand.ParseUnknown(line).value))
  {
    if v == Verbs.HELO then
      match Verbs.ParseHelo(args) { case Ok(helo) => Ok(Helo(helo)) case Err => Err }
    else if v == Verbs.EHLO then
      match Verbs.ParseEhlo(args) { case Ok(ehlo) => Ok(Ehlo(ehlo)) case Err => Err }
    else if v == Verbs.MAIL then
      match Verbs.ParseMail(args) { case Ok(mail) => Ok(Mail(mail)) case Err => Err }
    else if v == Verbs.RCPT then
      match Verbs.ParseRcpt(args) { case Ok(rcpt) => Ok(Rcpt(rcpt)) case Err => Err }
    else if v == Verbs.DATA then Ok(Data)
    else if v == Verbs.RSET then Ok(Rset)
    else if v == Verbs.VRFY then
      match Verbs.ParseVrfy(args) { case Ok(vrfy) => Ok(Vrfy(vrfy)) case Err => Err }
    else if v == Verbs.EXPN then
      match Verbs.ParseExpn(args) { case Ok(expn) => Ok(Expn(expn)) case Err => Err }
    else if v == Verbs.HELP then
      match Verbs.ParseHelp(args) { case Ok(help) => Ok(Help(help)) case Err => Err }
    else if v == Verbs.NOOP then
      match Verbs.ParseNoop(args) { case Ok(noop) => Ok(Noop(noop)) case Err => Err }
    else if v == Verbs.QUIT then Ok(Quit)
    else if v == Verbs.STARTTLS then Ok(StartTls)
    else
      match UnknownCommand.ParseUnknown(line) { case Ok(unknown) => Ok(Unknown(unknown)) case Err => Err }
  }

  /** The verb of a parsed command is the upper-cased verb of its line, and a
      command that keeps arguments keeps exactly the bytes after the first
      space. */
  lemma {:induction false} ParsedVerbAndArgs(line: Bytes)
    requires ParseCommand(line).Ok?
    ensures Verb(ParseCommand(line).value) == ToAsciiUpper(SplitAtSpace(line).0)
    ensures !IsArgumentless(ParseCommand(line).value) ==> Args(ParseCommand(line).value) == SplitAtSpace(line).1
  {
    var c := ParseCommand(line).value;
    var (verb, args) := SplitAtSpace(line);
    var v := ToAsciiUpper(verb);
    if c.Unknown? {
      assert c.unknown == UnknownCommand.ParseUnknown(line).value;
    }
  }

  /** Verb matching ignores ASCII case: two lines whose verbs agree once
      upper-cased and whose arguments agree parse identically, so `mail`,
      `Mail` and `MAIL` all give the same command. */
  lemma {:induction false} ParseIgnoresVerbCase(line1: Bytes, line2: Bytes)
    requires ToAsciiUpper(SplitAtSpace(line1).0) == ToAsciiUpper(SplitAtSpace(line2).0)
    requires SplitAtSpace(line1).1 == SplitAtSpace(line2).1
    ensures ParseCommand(line1) == ParseCommand(line2)
  {
    ValidUtf8Upper(SplitAtSpace(line1).0);
    ValidUtf8Upper(SplitAtSpace(line2).0);
  }

  /** `DATA`, `RSET`, `QUIT` and `STARTTLS` drop whatever follows the verb. */
  lemma {:induction false} ArgumentlessDropArgs(verb: Bytes, args: Bytes)
    requires SP !in verb
    requires ToAsciiUpper(verb) in {Verbs.DATA, Verbs.RSET, Verbs.QUIT, Verbs.STARTTLS}
    ensures ParseCommand(verb + [SP] + args).Ok?
    ensures ParseCommand(verb + [SP] + args) == ParseCommand(verb)
    ensures IsArgumentless(ParseCommand(verb).value)
  {
    SplitAtSpaceOfJoin(verb, args);
    Verbs.KnownVerbWellFormed(ToAsciiUpper(verb));
    AsciiIsUtf8(ToAsciiUpper(verb));
    ValidUtf8Upper(verb);
  }

  // ---------------------------------------------------------------------------
  // Rendering a command back into a line

  /** The commands the parser can produce: optional arguments are absent
      rather than empty, parameters are never split off, and an unknown verb
      is a UTF-8, upper-case, space-free verb outside the table. */
  predicate WellFormed(c: Command) {
    match c
    case Mail(m) => m.params.None?
    case Rcpt(r) => r.params.None?
    case Help(h) => h.commandName != Some([])
    case Noop(n) => n.comment != Some([])
    case Unknown(u) =>
      && ValidUtf8(u.verb) && IsUpperCase(u.verb) && SP !in u.verb
      && !Verbs.IsKnownVerb(u.verb)
    case _ => true
  }

  /** A command line carrying the command: its verb, then a space and its
      arguments when it has any. */
  function Render(c: Command): (line: Bytes) {
    if IsArgumentless(c) then Verb(c)
    else if c.Help? && c.help.commandName.None? then Verb(c)
    else if c.Noop? && c.noop.comment.None? then Verb(c)
    else Verb(c) + [SP] + Args(c)
  }

  /** Parsing is a left inverse of rendering: each of the twelve verbs comes
      back as its own variant with its arguments, and an unknown command
      comes back as itself. */
  lemma {:induction false} ParseRender(c: Command)
    requires WellFormed(c)
    ensures ParseCommand(Render(c)) == Ok(c)
  {
    RenderSplits(c);
    RenderedVerbAccepted(c);
    DispatchOwnVerb(c);
  }

  /** The verb table sends each verb back to its own variant. */
  lemma {:induction false} DispatchOwnVerb(c: Command)
    requires WellFormed(c)
    ensures Dispatch(Verb(c), Args(c), Render(c)) == Ok(c)
  {
    match c {
      case Help(h) => assert Verbs.ParseHelp(Args(c)) == Ok(h);
      case Noop(n) => assert Verbs.ParseNoop(Args(c)) == Ok(n);
      case Unknown(u) =>
        RenderSplits(c);
        UpperOfUpperCase(u.verb);
      case _ =>
    }
  }

  /** The line of a well-formed command splits back into its verb and its
      arguments. */
  lemma {:induction false} RenderSplits(c: Command)
    requires WellFormed(c)
    ensures SplitAtSpace(Render(c)) == (Verb(c), Args(c))
  {
    var v := Verb(c);
    if !c.Unknown? {
      Verbs.KnownVerbWellFormed(v);
    }
    var line := Render(c);
    if line == v {
      assert SplitAtSpace(line) == (v, []);
    } else {
      SplitAtSpaceOfJoin(v, Args(c));
    }
  }

  /** The verb of a well-formed command passes the UTF-8 check and is its
      own upper-casing. */
  lemma {:induction false} RenderedVerbAccepted(c: Command)
    requires WellFormed(c)
    ensures ValidUtf8(Verb(c)) && ToAsciiUpper(Verb(c)) == Verb(c)
  {
    var v := Verb(c);
    if !c.Unknown? {
      Verbs.KnownVerbWellFormed(v);
      AsciiIsUtf8(v);
    }
    UpperOfUpperCase(v);
  }

  /** Every parsed command is well formed, so rendering it and parsing again
      is stable. */
  lemma {:induction false} ParsedIsWellFormed(line: Bytes)
    requires ParseCommand(line).Ok?
    ensures WellFormed(ParseCommand(line).value)
    ensures ParseCommand(Render(ParseCommand(line).value)) == ParseCommand(line)
  {
    var c := ParseCommand(line).value;
    var verb := SplitAtSpace(line).0;
    if c.Unknown? {
      ValidUtf8Upper(verb);
      ToAsciiUpperIdempotent(verb);
    }
    ParseRender(c);
  }
}
