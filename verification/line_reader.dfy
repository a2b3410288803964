/** The line reader: the single arbiter of what a complete unit is, for both
    command lines and reply lines. It finds the first `<CR><LF>` by exact byte
    match and splits the buffer around it. */
module LineReader {

  import opened Wrappers
  import opened Bytes

  /** A `<CR><LF>` pair starts at index `i` of `s`. */
  predicate CrLfAt(s: Bytes, i: int) {
    0 <= i && i + 1 < |s| && s[i] == CR && s[i + 1] == LF
  }

  /** `s` holds no complete line terminator. */
  predicate NoCrLf(s: Bytes) {
    forall i :: 0 <= i < |s| ==> !CrLfAt(s, i)
  }

  /** `s` ends with a line terminator. */
  predicate EndsWithCrLf(s: Bytes) {
    |s| >= 2 && s[|s| - 2..] == CRLF
  }

  /** Index of the first `<CR><LF>` of `s`. */
  function FindCrLf(s: Bytes): (r: Option<nat>)
    ensures r.None? <==> NoCrLf(s)
    ensures r.Some? ==> CrLfAt(s, r.value) && forall j :: 0 <= j < r.value ==> !CrLfAt(s, j)
    decreases |s|
  {
    if |s| < 2 then None
    else if s[0] == CR && s[1] == LF then
      assert CrLfAt(s, 0);
      Some(0)
    else match FindCrLf(s[1..])
      case None =>
        assert forall i :: CrLfAt(s, i) ==> i > 0 && CrLfAt(s[1..], i - 1);
        None
      case Some(i) =>
        assert forall j :: 1 <= j <= i + 1 ==> (CrLfAt(s, j) <==> CrLfAt(s[1..], j - 1));
        assert CrLfAt(s, i + 1);
        Some(i + 1)
  }

  /** `next_line`: when the buffer holds a `<CR><LF>`, the bytes before the
      first one and the bytes after it; otherwise nothing, and the buffer
      stays as it is. */
  function NextLine(buffer: Bytes): (r: Option<(Bytes, Bytes)>)
    ensures r.None? <==> NoCrLf(buffer)
    ensures r.Some? ==> buffer == r.value.0 + CRLF + r.value.1 && NoCrLf(r.value.0)
  {
    match FindCrLf(buffer)
    case None => None
    case Some(i) =>
      var line := buffer[..i];
      assert forall j :: CrLfAt(line, j) ==> CrLfAt(buffer, j) && j < i;
      assert buffer == line + CRLF + buffer[i + 2..];
      Some((line, buffer[i + 2..]))
  }

  /** A line without a terminator of its own, followed by `<CR><LF>`, is
      exactly what the reader returns, whatever follows it: the split is
      unique, so the reader is the inverse of framing. */
  lemma {:induction false} NextLineOfFramed(line: Bytes, rest: Bytes)
    requires NoCrLf(line)
    ensures NextLine(line + CRLF + rest) == Some((line, rest))
  {
    var buffer := line + CRLF + rest;
    assert CrLfAt(buffer, |line|);
    var i := FindCrLf(buffer).value;
    if i < |line| {
      NoCrLfBeforeFrame(line, rest, i);
      assert false;
    }
    assert i == |line|;
    assert buffer[..i] == line;
    assert buffer[i + 2..] == rest;
  }

  lemma NoCrLfBeforeFrame(line: Bytes, rest: Bytes, i: int)
    requires NoCrLf(line)
    requires i < |line|
    ensures !CrLfAt(line + CRLF + rest, i)
  {
    var buffer := line + CRLF + rest;
    if 0 <= i && i + 1 < |line| {
      assert !CrLfAt(line, i);
      assert buffer[i] == line[i] && buffer[i + 1] == line[i + 1];
    } else if 0 <= i {
      assert buffer[i + 1] == CR;
    }
  }

  /** Bytes arriving after a complete line do not change which line the
      reader returns. */
  lemma {:induction false} NextLineExtend(buffer: Bytes, more: Bytes)
    requires NextLine(buffer).Some?
    ensures NextLine(buffer + more) == Some((NextLine(buffer).value.0, NextLine(buffer).value.1 + more))
  {
    var (line, rest) := NextLine(buffer).value;
    assert buffer + more == line + CRLF + (rest + more);
    NextLineOfFramed(line, rest + more);
  }
}
