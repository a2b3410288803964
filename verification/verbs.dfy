/** The commands of the core SMTP verb set and their argument constructors.
    Every constructor stores its argument bytes verbatim (no address or
    domain is extracted, no syntax is checked) and never fails. `DATA`,
    `RSET`, `QUIT` and `STARTTLS` carry no arguments at all. */
module Verbs {

  import opened Wrappers
  import opened Bytes

  // ---------------------------------------------------------------------------
  // The verbs, as ASCII bytes

  const HELO: Bytes := [0x48, 0x45, 0x4C, 0x4F]  // HELO
  const EHLO: Bytes := [0x45, 0x48, 0x4C, 0x4F]  // EHLO
  const MAIL: Bytes := [0x4D, 0x41, 0x49, 0x4C]  // MAIL
  const RCPT: Bytes := [0x52, 0x43, 0x50, 0x54]  // RCPT
  const DATA: Bytes := [0x44, 0x41, 0x54, 0x41]  // DATA
  const RSET: Bytes := [0x52, 0x53, 0x45, 0x54]  // RSET
  const VRFY: Bytes := [0x56, 0x52, 0x46, 0x59]  // VRFY
  const EXPN: Bytes := [0x45, 0x58, 0x50, 0x4E]  // EXPN
  const HELP: Bytes := [0x48, 0x45, 0x4C, 0x50]  // HELP
  const NOOP: Bytes := [0x4E, 0x4F, 0x4F, 0x50]  // NOOP
  const QUIT: Bytes := [0x51, 0x55, 0x49, 0x54]  // QUIT
  const STARTTLS: Bytes := [0x53, 0x54, 0x41, 0x52, 0x54, 0x54, 0x4C, 0x53]  // STARTTLS

  /** The closed verb table the command parser dispatches over. */
  predicate IsKnownVerb(v: Bytes) {
    || v == HELO || v == EHLO || v == MAIL || v == RCPT || v == DATA || v == RSET
    || v == VRFY || v == EXPN || v == HELP || v == NOOP || v == QUIT || v == STARTTLS
  }

  /** Every verb of the table is upper-case ASCII without a space. */
  lemma KnownVerbWellFormed(v: Bytes)
    requires IsKnownVerb(v)
    ensures IsAscii(v) && IsUpperCase(v) && SP !in v
  {
  }

  // ---------------------------------------------------------------------------
  // Argument-carrying commands

  /** HELO: the client's domain. */
  datatype Helo = Helo(domain: Bytes)

  function ParseHelo(args: Bytes): (r: Result<Helo>)
    ensures r.Ok? && r.value.domain == args
  {
    Ok(Helo(args))
  }

  /** EHLO: the client's domain or address literal. */
  datatype Ehlo = Ehlo(domain: Bytes)

  function ParseEhlo(args: Bytes): (r: Result<Ehlo>)
    ensures r.Ok? && r.value.domain == args
  {
    Ok(Ehlo(args))
  }

  /** MAIL: the reverse path, which is the whole argument including its
      `FROM:` prefix; mail parameters are never split off. */
  datatype Mail = Mail(from: Bytes, params: Option<Bytes>)

  function ParseMail(args: Bytes): (r: Result<Mail>)
    ensures r.Ok? && r.value.from == args && r.value.params.None?
  {
    Ok(Mail(args, None))
  }

  /** RCPT: the forward path, which is the whole argument including its `TO:`
      prefix; recipient parameters are never split off. */
  datatype Rcpt = Rcpt(to: Bytes, params: Option<Bytes>)

  function ParseRcpt(args: Bytes): (r: Result<Rcpt>)
    ensures r.Ok? && r.value.to == args && r.value.params.None?
  {
    Ok(Rcpt(args, None))
  }

  /** VRFY: the user or mailbox asked about. */
  datatype Vrfy = Vrfy(userOrMailbox: Bytes)

  function ParseVrfy(args: Bytes): (r: Result<Vrfy>)
    ensures r.Ok? && r.value.userOrMailbox == args
  {
    Ok(Vrfy(args))
  }

  /** EXPN: the mailing list asked about. */
  datatype Expn = Expn(mailingList: Bytes)

  function ParseExpn(args: Bytes): (r: Result<Expn>)
    ensures r.Ok? && r.value.mailingList == args
  {
    Ok(Expn(args))
  }

  /** HELP: an optional command name; empty arguments mean none. */
  datatype Help = Help(commandName: Option<Bytes>)

  function ParseHelp(args: Bytes): (r: Result<Help>)
    ensures r.Ok?
    ensures r.value.commandName.None? <==> args == []
    ensures r.value.commandName.Some? ==> r.value.commandName.value == args
  {
    if args == [] then Ok(Help(None)) else Ok(Help(Some(args)))
  }

  /** NOOP: an optional comment; empty arguments mean none. */
  datatype Noop = Noop(comment: Option<Bytes>)

  function ParseNoop(args: Bytes): (r: Result<Noop>)
    ensures r.Ok?
    ensures r.value.comment.None? <==> args == []
    ensures r.value.comment.Some? ==> r.value.comment.value == args
  {
    if args == [] then Ok(Noop(None)) else Ok(Noop(Some(args)))
  }
}
