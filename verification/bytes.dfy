/** Octets and the byte-level notions the SMTP observer relies on: the
    `<CR><LF>` line terminator and the space separator, ASCII-only case
    folding, the split of a command line at its first space, and UTF-8
    well-formedness as defined in section 4 of RFC 3629. */
module Bytes {

  import opened Wrappers

  newtype byte = b: int | 0 <= b < 0x100

  type Bytes = seq<byte>

  const CR: byte := 0x0D
  const LF: byte := 0x0A
  const SP: byte := 0x20
  const CRLF: Bytes := [CR, LF]

  /** The byte of a 7-bit character literal. */
  function Ch(c: char): (b: byte)
    requires c as int < 0x80
  {
    c as int as byte
  }

  // ---------------------------------------------------------------------------
  // ASCII case folding

  predicate IsAscii(s: Bytes) {
    forall i :: 0 <= i < |s| ==> s[i] < 0x80
  }

  predicate IsAsciiLower(b: byte) {
    Ch('a') <= b <= Ch('z')
  }

  function UpperByte(b: byte): (u: byte) {
    if IsAsciiLower(b) then b - 0x20 else b
  }

  /** ASCII upper-casing of a byte string: only `a`..`z` change, every other
      byte (in particular every byte of a multi-byte UTF-8 character) is kept.
      This is what Rust's `make_ascii_uppercase` does to a `String`. */
  function ToAsciiUpper(s: Bytes): (r: Bytes)
    ensures |r| == |s|
    ensures forall i :: 0 <= i < |s| && !IsAsciiLower(s[i]) ==> r[i] == s[i]
    ensures forall i :: 0 <= i < |s| && IsAsciiLower(s[i]) ==> r[i] as int + 0x20 == s[i] as int
    ensures forall i :: 0 <= i < |s| ==> !IsAsciiLower(r[i])
    ensures IsAscii(r) <==> IsAscii(s)
  {
    seq(|s|, i requires 0 <= i < |s| => UpperByte(s[i]))
  }

  /** A byte string ASCII upper-casing leaves alone. */
  predicate IsUpperCase(s: Bytes) {
    forall i :: 0 <= i < |s| ==> !IsAsciiLower(s[i])
  }

  lemma UpperOfUpperCase(s: Bytes)
    requires IsUpperCase(s)
    ensures ToAsciiUpper(s) == s
  {
  }

  lemma {:induction false} ToAsciiUpperIdempotent(s: Bytes)
    ensures ToAsciiUpper(ToAsciiUpper(s)) == ToAsciiUpper(s)
  {
    var u := ToAsciiUpper(s);
    var uu := ToAsciiUpper(u);
    forall i | 0 <= i < |s|
      ensures uu[i] == u[i]
    {
      assert !IsAsciiLower(u[i]);
    }
  }

  lemma {:induction false} ToAsciiUpperSlice(s: Bytes, n: nat)
    requires n <= |s|
    ensures ToAsciiUpper(s)[n..] == ToAsciiUpper(s[n..])
  {
  }

  // ---------------------------------------------------------------------------
  // Splitting a command line at the first space

  /** Index of the first occurrence of `b` in `s`. */
  function FindByte(s: Bytes, b: byte): (r: Option<nat>)
    ensures r.None? <==> b !in s
    ensures r.Some? ==> r.value < |s| && s[r.value] == b && b !in s[..r.value]
  {
    if |s| == 0 then None
    else if s[0] == b then Some(0)
    else match FindByte(s[1..], b)
      case None => None
      case Some(i) =>
        assert s[1..][..i] == s[1..i + 1];
        Some(i + 1)
  }

  /** The verb/arguments split shared by the command parser and by the
      parser of unknown commands: everything before the first space is the
      verb, everything after it the arguments; a line without a space is all
      verb, with empty arguments. */
  function SplitAtSpace(line: Bytes): (r: (Bytes, Bytes))
    ensures SP !in r.0
    ensures SP in line ==> line == r.0 + [SP] + r.1
    ensures SP !in line ==> r == (line, [])
  {
    match FindByte(line, SP)
    case Some(i) =>
      assert line == line[..i] + [SP] + line[i + 1..];
      (line[..i], line[i + 1..])
    case None => (line, [])
  }

  lemma {:induction false} SplitAtSpaceOfJoin(verb: Bytes, args: Bytes)
    requires SP !in verb
    ensures SplitAtSpace(verb + [SP] + args) == (verb, args)
  {
    var line := verb + [SP] + args;
    assert line[|verb|] == SP;
    var r := SplitAtSpace(line);
    assert line == r.0 + [SP] + r.1;
    if |r.0| != |verb| {
      assert false;
    }
    assert r.0 == line[..|verb|] == verb;
    assert r.1 == line[|verb| + 1..] == args;
  }

  // ---------------------------------------------------------------------------
  // UTF-8 well-formedness (section 4 of RFC 3629)

  predicate IsTail(b: byte) {
    0x80 <= b <= 0xBF
  }

  /** Length of the well-formed UTF-8 character at the front of `s`, following
      the UTF8-1 .. UTF8-4 productions of section 4 of RFC 3629, or 0 when `s`
      does not start with one (overlong forms, surrogates and code points
      above U+10FFFF are rejected by those productions). */
  function CharLength(s: Bytes): (n: nat)
    ensures n <= |s| && n <= 4
    ensures |s| > 0 && s[0] < 0x80 ==> n == 1
    ensures n > 1 ==> s[0] >= 0xC2 && forall k :: 1 <= k < n ==> s[k] >= 0x80
  {
    if |s| == 0 then 0
    else
      var b := s[0];
      if b <= 0x7F then 1
      else if 0xC2 <= b <= 0xDF then
        if 2 <= |s| && IsTail(s[1]) then 2 else 0
      else if b == 0xE0 then
        if 3 <= |s| && 0xA0 <= s[1] <= 0xBF && IsTail(s[2]) then 3 else 0
      else if (0xE1 <= b <= 0xEC) || (0xEE <= b <= 0xEF) then
        if 3 <= |s| && IsTail(s[1]) && IsTail(s[2]) then 3 else 0
      else if b == 0xED then
        if 3 <= |s| && 0x80 <= s[1] <= 0x9F && IsTail(s[2]) then 3 else 0
      else if b == 0xF0 then
        if 4 <= |s| && 0x90 <= s[1] <= 0xBF && IsTail(s[2]) && IsTail(s[3]) then 4 else 0
      else if 0xF1 <= b <= 0xF3 then
        if 4 <= |s| && IsTail(s[1]) && IsTail(s[2]) && IsTail(s[3]) then 4 else 0
      else if b == 0xF4 then
        if 4 <= |s| && 0x80 <= s[1] <= 0x8F && IsTail(s[2]) && IsTail(s[3]) then 4 else 0
      else 0
  }

  /** `s` is a concatenation of well-formed UTF-8 characters: the check Rust's
      `String::from_utf8` performs. */
  predicate ValidUtf8(s: Bytes)
    decreases |s|
  {
    |s| == 0 || (CharLength(s) > 0 && ValidUtf8(s[CharLength(s)..]))
  }

  /** Every ASCII string is well-formed UTF-8. */
  lemma {:induction false} AsciiIsUtf8(s: Bytes)
    requires IsAscii(s)
    ensures ValidUtf8(s)
    decreases |s|
  {
    if |s| > 0 {
      assert CharLength(s) == 1;
      AsciiIsUtf8(s[1..]);
    }
  }

  /** Character boundaries do not move under ASCII upper-casing. */
  lemma CharLengthUpper(s: Bytes)
    ensures CharLength(ToAsciiUpper(s)) == CharLength(s)
  {
    var u := ToAsciiUpper(s);
    if |s| > 0 && s[0] >= 0x80 {
      forall k | 0 <= k < |s| && s[k] >= 0x80
        ensures u[k] == s[k]
      {
      }
      assert u[0] == s[0];
      if |s| > 1 && s[1] >= 0x80 { assert u[1] == s[1]; }
      if |s| > 1 && s[1] < 0x80 { assert u[1] < 0x80; }
      if |s| > 2 && s[2] >= 0x80 { assert u[2] == s[2]; }
      if |s| > 2 && s[2] < 0x80 { assert u[2] < 0x80; }
      if |s| > 3 && s[3] >= 0x80 { assert u[3] == s[3]; }
      if |s| > 3 && s[3] < 0x80 { assert u[3] < 0x80; }
    }
  }

  /** ASCII upper-casing neither creates nor destroys UTF-8 well-formedness,
      so checking the verb before or after upper-casing is the same. */
  lemma {:induction false} ValidUtf8Upper(s: Bytes)
    ensures ValidUtf8(ToAsciiUpper(s)) <==> ValidUtf8(s)
    decreases |s|
  {
    if |s| > 0 {
      var n := CharLength(s);
      CharLengthUpper(s);
      if n > 0 {
        ToAsciiUpperSlice(s, n);
        ValidUtf8Upper(s[n..]);
      }
    }
  }
}
