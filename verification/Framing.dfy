/**
 The base protocol of the Language Server Protocol: messages after headers. Reading
 is described on the input that is left.
 */
module Framing {
  import opened Bytes
  import opened Decimals
  import opened Options
  import opened Sequences
  import opened UnsignedIntegers

  const CARRIAGE_RETURN: Byte := 13
  const HASH: Byte := 35
  /** "Content-Length: " */
  const CONTENT_LENGTH: seq<Byte> := [67, 111, 110, 116, 101, 110, 116, 45, 76, 101, 110, 103, 116, 104, 58, 32]
  const END_OF_LINE: seq<Byte> := [CARRIAGE_RETURN, NEWLINE]
  const MAX_LENGTH := 0x4000_0000
  const MAX_STREAM := 0x8000_0000_0000_0000

  /** What a failed conversion leaves in the content length, given the text and the old
      value. It may be anything: no result depends on it. */
  type Leftover = (seq<Byte>, nat) -> nat

  /** The content length after getAsUnsignedInteger(text, 0, length). */
  function NewLength(leftover: Leftover, text: seq<Byte>, length: nat): nat {
    match ParseUnsigned(text)
    case Some(n) => n
    case None => leftover(text, length)
  }

  // ---------- Streams ----------

  /** An input stream: what is left, and In.good(). */
  datatype Input = Input(rest: seq<Byte>, good: bool)

  function LineLength(s: seq<Byte>): (n: nat)
    ensures n <= |s| && (n < |s| ==> s[n] == NEWLINE)
    ensures forall i :: 0 <= i < n ==> s[i] != NEWLINE
  {
    if s == [] || s[0] == NEWLINE then 0 else 1 + LineLength(s[1..])
  }

  /** std::getline on a good stream: without a newline the stream ends. */
  function GetLine(input: Input): (r: (seq<Byte>, Input))
    requires input.good
    ensures |r.1.rest| <= |input.rest| && (r.1.good ==> |r.1.rest| < |input.rest|)
  {
    var n := LineLength(input.rest);
    if n < |input.rest| then (input.rest[..n], Input(input.rest[n + 1..], true)) else (input.rest, Input([], false))
  }

  // ---------- Headers ----------

  predicate IsBlank(c: Byte) {
    c == 32 || 9 <= c <= 13
  }

  function TrimLeft(s: seq<Byte>): seq<Byte> {
    if s != [] && IsBlank(s[0]) then TrimLeft(s[1..]) else s
  }

  function TrimRight(s: seq<Byte>): seq<Byte> {
    if s != [] && IsBlank(s[|s| - 1]) then TrimRight(s[..|s| - 1]) else s
  }

  function Trim(s: seq<Byte>): seq<Byte> {
    TrimRight(TrimLeft(s))
  }

  /** The header loop: what is left, and the content length. */
  function ReadHeaders(leftover: Leftover, input: Input, length: nat): (r: (Input, nat))
    ensures |r.0.rest| <= |input.rest| && (r.0.good ==> input.good && |r.0.rest| < |input.rest|)
    decreases |input.rest|, input.good
  {
    if !input.good then (input, length)
    else
      var (line, next) := GetLine(input);
      if line != [] && line[0] == HASH then ReadHeaders(leftover, next, length)
      else if CONTENT_LENGTH <= line then ReadHeaders(leftover, next, NewLength(leftover, Trim(line[|CONTENT_LENGTH|..]), length))
      else if Trim(line) != [] then ReadHeaders(leftover, next, length)
      else (next, length)
  }

  /** In.ignore(n), whose argument is signed: a number too large for it is negative,
      and nothing is skipped. */
  function Skip(input: Input, n: nat): (r: Input)
    ensures |r.rest| <= |input.rest| && (r.good ==> input.good)
  {
    if !input.good || n >= MAX_STREAM then input
    else if n <= |input.rest| then Input(input.rest[n..], true)
    else Input([], false)
  }

  function ReadMessage(leftover: Leftover, input: Input): (r: (Option<seq<Byte>>, Input))
    ensures |r.1.rest| <= |input.rest| && (r.1.good ==> input.good && |r.1.rest| < |input.rest|)
  {
    var (next, length) := ReadHeaders(leftover, input, 0);
    if length > MAX_LENGTH then (None, Skip(next, length))
    else if length == 0 then (None, next)
    else if !next.good then (None, next)
    else if length <= |next.rest| then (Some(next.rest[..length]), Input(next.rest[length..], true))
    else (None, Input([], false))
  }

  /** The messages that the server loop reads until its input ends. */
  function ReadAll(leftover: Leftover, input: Input): seq<seq<Byte>>
    decreases |input.rest|, input.good
  {
    if !input.good then []
    else
      var (message, next) := ReadMessage(leftover, input);
      (if message.Some? then [message.value] else []) + ReadAll(leftover, next)
  }

  // ---------- Frames ----------

  /** What writeMessage sends. */
  function Frame(body: seq<Byte>): seq<Byte> {
    CONTENT_LENGTH + Digits(|body|) + END_OF_LINE + END_OF_LINE + body
  }

  function Frames(bodies: seq<seq<Byte>>): seq<Byte> {
    if bodies == [] then [] else Frame(bodies[0]) + Frames(bodies[1..])
  }

  /** A line that the header loop passes over: a comment or another header. */
  predicate IsIgnored(line: seq<Byte>) {
    && NEWLINE !in line
    && (line != [] && line[0] != HASH ==> !(CONTENT_LENGTH <= line))
    && Trim(line) != []
  }

  function IgnoredLines(lines: seq<seq<Byte>>): seq<Byte> {
    if lines == [] then [] else lines[0] + [NEWLINE] + IgnoredLines(lines[1..])
  }

  /** The message is delivered: not empty and at most 1 GB. */
  predicate Delivered(body: seq<Byte>) {
    0 < |body| <= 1024 * 1024 * 1024
  }

  function DeliveredOf(bodies: seq<seq<Byte>>): seq<seq<Byte>> {
    if bodies == [] then []
    else (if Delivered(bodies[0]) then [bodies[0]] else []) + DeliveredOf(bodies[1..])
  }

  // ---------- Characters ----------

  /** What is sent, spelled out. */
  lemma FrameIs(body: seq<Byte>)
    ensures Frame(body) == Ascii("Content-Length: ") + Digits(|body|) + Ascii("\r\n\r\n") + body
  {
    HeaderTexts();
    Assoc(CONTENT_LENGTH + Digits(|body|), END_OF_LINE, END_OF_LINE);
  }

  lemma HeaderTexts()
    ensures CONTENT_LENGTH == Ascii("Content-Length: ")
    ensures END_OF_LINE + END_OF_LINE == Ascii("\r\n\r\n")
  {
  }

  /** A comment starts with a number sign. */
  lemma CommentIsIgnored(line: seq<Byte>)
    requires line != [] && line[0] as char == '#' && NEWLINE !in line
    ensures IsIgnored(line)
  {
    BlanksAre(line[0]);
    var i, j := TrimmedExactly(line);
  }

  predicate IsAsciiBlank(c: Byte) {
    c as char in " \t\n\U{B}\U{C}\r"
  }

  lemma BlanksAre(c: Byte)
    ensures IsBlank(c) <==> IsAsciiBlank(c)
  {
    assert IsAsciiBlank(c) <==> c == 32 || c == 9 || c == 10 || c == 11 || c == 12 || c == 13;
  }

  lemma {:induction false} TrimmedLeft(s: seq<Byte>) returns (i: nat)
    ensures i <= |s| && TrimLeft(s) == s[i..] && (forall k :: 0 <= k < i ==> IsAsciiBlank(s[k]))
    ensures i < |s| ==> !IsAsciiBlank(s[i])
  {
    i := 0;
    if s != [] {
      BlanksAre(s[0]);
      if IsBlank(s[0]) {
        var j := TrimmedLeft(s[1..]);
        i := j + 1;
        assert forall k :: 0 < k < i ==> s[k] == s[1..][k - 1];
      }
    }
  }

  lemma {:induction false} TrimmedRight(s: seq<Byte>) returns (j: nat)
    ensures j <= |s| && TrimRight(s) == s[..j] && (forall k :: j <= k < |s| ==> IsAsciiBlank(s[k]))
    ensures j > 0 ==> !IsAsciiBlank(s[j - 1])
  {
    j := |s|;
    if s != [] {
      BlanksAre(s[|s| - 1]);
      if IsBlank(s[|s| - 1]) {
        j := TrimmedRight(s[..|s| - 1]);
        assert s[..|s| - 1][..j] == s[..j];
      }
    }
  }

  /** Trimming takes the blanks at both ends, and nothing else. */
  lemma TrimmedExactly(s: seq<Byte>) returns (i: nat, j: nat)
    ensures i <= j <= |s| && Trim(s) == s[i..j]
    ensures forall k :: 0 <= k < i || j <= k < |s| ==> IsAsciiBlank(s[k])
    ensures i < j ==> !IsAsciiBlank(s[i]) && !IsAsciiBlank(s[j - 1])
    ensures i == j ==> forall k :: 0 <= k < |s| ==> IsAsciiBlank(s[k])
  {
    i := TrimmedLeft(s);
    var t := s[i..];
    var n := TrimmedRight(t);
    j := i + n;
    assert t[..n] == s[i..j];
    forall k | j <= k < |s|
      ensures IsAsciiBlank(s[k])
    {
      assert s[k] == t[k - i];
    }
    if i < j {
      assert t[n - 1] == s[j - 1];
    }
  }

  // ---------- Lines ----------

  lemma {:induction false} LineIs(line: seq<Byte>, rest: seq<Byte>)
    requires NEWLINE !in line
    ensures LineLength(line + [NEWLINE] + rest) == |line|
  {
    if line != [] {
      assert (line + [NEWLINE] + rest)[1..] == line[1..] + [NEWLINE] + rest;
      LineIs(line[1..], rest);
    }
  }

  lemma GetsLine(line: seq<Byte>, rest: seq<Byte>)
    requires NEWLINE !in line
    ensures GetLine(Input(line + [NEWLINE] + rest, true)) == (line, Input(rest, true))
  {
    var s := line + [NEWLINE] + rest;
    LineIs(line, rest);
    assert s[..|line|] == line && s[|line| + 1..] == rest;
  }

  /** Digits followed by the carriage return of their line. */
  lemma TrimmedDigits(digits: seq<Byte>)
    requires digits != [] && AllDigits(digits)
    ensures Trim(digits + [CARRIAGE_RETURN]) == digits
  {
    var s := digits + [CARRIAGE_RETURN];
    assert IsDigit(s[0]) && TrimLeft(s) == s;
    assert s[..|s| - 1] == digits;
    assert TrimRight(s) == TrimRight(digits);
    assert IsDigit(digits[|digits| - 1]);
  }

  // ---------- Reading headers ----------

  lemma {:induction false} PassesIgnored(leftover: Leftover, lines: seq<seq<Byte>>, rest: seq<Byte>, length: nat)
    requires forall i :: 0 <= i < |lines| ==> IsIgnored(lines[i])
    ensures ReadHeaders(leftover, Input(IgnoredLines(lines) + rest, true), length) == ReadHeaders(leftover, Input(rest, true), length)
  {
    if lines == [] {
      assert IgnoredLines(lines) + rest == rest;
    } else {
      var more := IgnoredLines(lines[1..]) + rest;
      assert IgnoredLines(lines) + rest == lines[0] + [NEWLINE] + more;
      GetsLine(lines[0], more);
      PassesIgnored(leftover, lines[1..], rest, length);
    }
  }

  /** A Content-Length line with any decimal digits. */
  lemma ReadsLengthLine(leftover: Leftover, digits: seq<Byte>, rest: seq<Byte>, length: nat)
    requires digits != [] && AllDigits(digits)
    ensures ReadHeaders(leftover, Input(CONTENT_LENGTH + digits + END_OF_LINE + rest, true), length) ==
            ReadHeaders(leftover, Input(rest, true), NewLength(leftover, digits, length))
  {
    var line := CONTENT_LENGTH + digits + [CARRIAGE_RETURN];
    assert CONTENT_LENGTH + digits + END_OF_LINE + rest == line + [NEWLINE] + rest;
    LengthLine(digits, line);
    ReadsLine(leftover, line, rest, length);
  }

  lemma LengthLine(digits: seq<Byte>, line: seq<Byte>)
    requires digits != [] && AllDigits(digits) && line == CONTENT_LENGTH + digits + [CARRIAGE_RETURN]
    ensures CONTENT_LENGTH <= line && line[0] != HASH && NEWLINE !in line
    ensures Trim(line[|CONTENT_LENGTH|..]) == digits
  {
    assert line[|CONTENT_LENGTH|..] == digits + [CARRIAGE_RETURN];
    TrimmedDigits(digits);
  }

  lemma ReadsLine(leftover: Leftover, line: seq<Byte>, rest: seq<Byte>, length: nat)
    requires CONTENT_LENGTH <= line && line[0] != HASH && NEWLINE !in line
    ensures ReadHeaders(leftover, Input(line + [NEWLINE] + rest, true), length) ==
            ReadHeaders(leftover, Input(rest, true), NewLength(leftover, Trim(line[|CONTENT_LENGTH|..]), length))
  {
    GetsLine(line, rest);
  }

  /** Its decimal value is the length, if that fits and no leading zero makes it octal. */
  lemma ReadsDecimalLength(leftover: Leftover, digits: seq<Byte>, rest: seq<Byte>, length: nat)
    requires digits != [] && AllDigits(digits)
    requires DigitsValue(digits) < if HasLeadingZero(digits) then 8 else UINT64_RANGE
    ensures ReadHeaders(leftover, Input(CONTENT_LENGTH + digits + END_OF_LINE + rest, true), length) ==
            ReadHeaders(leftover, Input(rest, true), DigitsValue(digits))
  {
    ReadsLengthLine(leftover, digits, rest, length);
    DecimalExactly(digits);
  }

  lemma ReadsLength(leftover: Leftover, n: nat, rest: seq<Byte>, length: nat)
    requires n < UINT64_RANGE
    ensures ReadHeaders(leftover, Input(CONTENT_LENGTH + Digits(n) + END_OF_LINE + rest, true), length) ==
            ReadHeaders(leftover, Input(rest, true), n)
  {
    ReadsLengthLine(leftover, Digits(n), rest, length);
    ReadsDigits(n);
  }

  lemma EndsHeaders(leftover: Leftover, rest: seq<Byte>, length: nat)
    ensures ReadHeaders(leftover, Input(END_OF_LINE + rest, true), length) == (Input(rest, true), length)
  {
    var line := [CARRIAGE_RETURN];
    assert END_OF_LINE + rest == line + [NEWLINE] + rest;
    GetsLine(line, rest);
    assert line[1..] == [] && TrimLeft(line) == [];
  }

  // ---------- Reading messages ----------

  /** A message with further header lines around its length. */
  function Message(before: seq<seq<Byte>>, after: seq<seq<Byte>>, body: seq<Byte>, rest: seq<Byte>): seq<Byte> {
    IgnoredLines(before)
    + (CONTENT_LENGTH + Digits(|body|) + END_OF_LINE + (IgnoredLines(after) + (END_OF_LINE + (body + rest))))
  }

  lemma BodyIsRead(leftover: Leftover, input: Input, body: seq<Byte>, rest: seq<Byte>)
    requires |body| < MAX_STREAM && ReadHeaders(leftover, input, 0) == (Input(body + rest, true), |body|)
    ensures ReadMessage(leftover, input) == (if Delivered(body) then Some(body) else None, Input(rest, true))
  {
    assert (body + rest)[..|body|] == body && (body + rest)[|body|..] == rest;
  }

  /** A message is read whole whatever other headers and comments it comes with, and
      nothing of what follows it. */
  lemma MessageIsRead(leftover: Leftover, before: seq<seq<Byte>>, after: seq<seq<Byte>>, body: seq<Byte>, rest: seq<Byte>)
    requires |body| < MAX_STREAM
    requires forall i :: 0 <= i < |before| ==> IsIgnored(before[i])
    requires forall i :: 0 <= i < |after| ==> IsIgnored(after[i])
    ensures ReadMessage(leftover, Input(Message(before, after, body, rest), true)) ==
            (if Delivered(body) then Some(body) else None, Input(rest, true))
  {
    var n := |body|;
    var afterHeaders := END_OF_LINE + (body + rest);
    var afterLength := IgnoredLines(after) + afterHeaders;
    PassesIgnored(leftover, before, CONTENT_LENGTH + Digits(n) + END_OF_LINE + afterLength, 0);
    ReadsLength(leftover, n, afterLength, 0);
    PassesIgnored(leftover, after, afterHeaders, n);
    EndsHeaders(leftover, body + rest, n);
    BodyIsRead(leftover, Input(Message(before, after, body, rest), true), body, rest);
  }

  lemma FrameIsMessage(body: seq<Byte>, rest: seq<Byte>)
    ensures Frame(body) + rest == Message([], [], body, rest)
  {
    var header := CONTENT_LENGTH + Digits(|body|) + END_OF_LINE;
    assert Frame(body) + rest == header + (END_OF_LINE + (body + rest));
    assert IgnoredLines([]) + (END_OF_LINE + (body + rest)) == END_OF_LINE + (body + rest);
    assert IgnoredLines([]) + (header + (END_OF_LINE + (body + rest))) == header + (END_OF_LINE + (body + rest));
  }

  // ---------- Streams that end early ----------

  lemma {:induction false} NoNewline(s: seq<Byte>)
    requires NEWLINE !in s
    ensures LineLength(s) == |s|
  {
    if s != [] {
      NoNewline(s[1..]);
    }
  }

  /** Headers without a last line end with the stream. */
  lemma HeadersRunOut(leftover: Leftover, s: seq<Byte>, length: nat)
    requires NEWLINE !in s
    ensures ReadHeaders(leftover, Input(s, true), length).0 == Input([], false)
  {
    NoNewline(s);
    assert GetLine(Input(s, true)) == (s, Input([], false));
  }

  lemma NothingWithoutBody(leftover: Leftover, input: Input)
    requires ReadHeaders(leftover, input, 0).0 == Input([], false)
    ensures ReadMessage(leftover, input) == (None, Input([], false))
  {
  }

  lemma PrefixOfLine(line: seq<Byte>, rest: seq<Byte>, k: nat)
    requires k <= |line + [NEWLINE] + rest|
    ensures (line + [NEWLINE] + rest)[..k] == if k <= |line| then line[..k] else line + [NEWLINE] + rest[..k - |line| - 1]
  {
  }

  /** The headers of a message, cut short. */
  lemma HeadersCutShort(leftover: Leftover, n: nat, k: nat)
    requires n < UINT64_RANGE && k < |CONTENT_LENGTH + Digits(n) + END_OF_LINE + END_OF_LINE|
    ensures ReadHeaders(leftover, Input((CONTENT_LENGTH + Digits(n) + END_OF_LINE + END_OF_LINE)[..k], true), 0).0 == Input([], false)
  {
    var line := CONTENT_LENGTH + Digits(n) + [CARRIAGE_RETURN];
    var s := CONTENT_LENGTH + Digits(n) + END_OF_LINE + END_OF_LINE;
    assert s == line + [NEWLINE] + END_OF_LINE;
    LengthLine(Digits(n), line);
    PrefixOfLine(line, END_OF_LINE, k);
    if k <= |line| {
      HeadersRunOut(leftover, line[..k], 0);
    } else {
      var end := END_OF_LINE[..k - |line| - 1];
      ReadsLine(leftover, line, end, 0);
      HeadersRunOut(leftover, end, NewLength(leftover, Trim(line[|CONTENT_LENGTH|..]), 0));
    }
  }

  /** A body cut short. */
  lemma BodyCutShort(leftover: Leftover, input: Input, n: nat, rest: seq<Byte>)
    requires n < MAX_STREAM && |rest| < n && ReadHeaders(leftover, input, 0) == (Input(rest, true), n)
    ensures ReadMessage(leftover, input) == (None, Input([], false))
  {
  }

  lemma PrefixPast<T>(a: seq<T>, b: seq<T>, k: nat)
    requires k <= |a| + |b|
    ensures (a + b)[..k] == if k <= |a| then a[..k] else a + b[..k - |a|]
  {
  }

  /** A stream that ends inside of a message, wherever, gives no message and is at its end. */
  lemma MessageCutShort(leftover: Leftover, body: seq<Byte>, k: nat)
    requires |body| < MAX_STREAM && k < |Frame(body)|
    ensures ReadMessage(leftover, Input(Frame(body)[..k], true)) == (None, Input([], false))
  {
    var n := |body|;
    var headers := CONTENT_LENGTH + Digits(n) + END_OF_LINE + END_OF_LINE;
    PrefixPast(headers, body, k);
    if k < |headers| {
      HeadersCutShort(leftover, n, k);
      NothingWithoutBody(leftover, Input(headers[..k], true));
    } else {
      var some := body[..k - |headers|];
      assert headers[..|headers|] == headers;
      assert Frame(body)[..k] == headers + some;
      Assoc(CONTENT_LENGTH + Digits(n) + END_OF_LINE, END_OF_LINE, some);
      ReadsLength(leftover, n, END_OF_LINE + some, 0);
      EndsHeaders(leftover, some, n);
      BodyCutShort(leftover, Input(headers + some, true), n, some);
    }
  }

  /** At the end of the input the loop reads nothing and ends. */
  lemma ReadsNothingAtEnd(leftover: Leftover)
    ensures ReadAll(leftover, Input([], true)) == []
  {
    assert GetLine(Input([], true)) == ([], Input([], false));
    assert ReadMessage(leftover, Input([], true)) == (None, Input([], false));
  }

  /** The loop goes on after a message. */
  lemma NextIsRead(leftover: Leftover, body: seq<Byte>, rest: seq<Byte>)
    requires |body| < MAX_STREAM
    ensures ReadAll(leftover, Input(Frame(body) + rest, true)) ==
            (if Delivered(body) then [body] else []) + ReadAll(leftover, Input(rest, true))
  {
    FrameIsMessage(body, rest);
    MessageIsRead(leftover, [], [], body, rest);
  }

  /** Main result: from written messages the loop reads exactly those that are not
      empty and at most 1 GB, in order; the others are skipped whole. */
  lemma {:induction false} FramesAreRead(leftover: Leftover, bodies: seq<seq<Byte>>)
    requires forall i :: 0 <= i < |bodies| ==> |bodies[i]| < MAX_STREAM
    ensures ReadAll(leftover, Input(Frames(bodies), true)) == DeliveredOf(bodies)
  {
    if bodies == [] {
      ReadsNothingAtEnd(leftover);
    } else {
      NextIsRead(leftover, bodies[0], Frames(bodies[1..]));
      FramesAreRead(leftover, bodies[1..]);
    }
  }

  lemma CutShortIsNothing(leftover: Leftover, body: seq<Byte>, k: nat)
    requires |body| < MAX_STREAM && k < |Frame(body)|
    ensures ReadAll(leftover, Input(Frame(body)[..k], true)) == []
  {
    MessageCutShort(leftover, body, k);
  }

  /** When the stream ends inside of a message, those before it are read. */
  lemma {:induction false} FramesCutShort(leftover: Leftover, bodies: seq<seq<Byte>>, body: seq<Byte>, k: nat)
    requires forall i :: 0 <= i < |bodies| ==> |bodies[i]| < MAX_STREAM
    requires |body| < MAX_STREAM && k < |Frame(body)|
    ensures ReadAll(leftover, Input(Frames(bodies) + Frame(body)[..k], true)) == DeliveredOf(bodies)
  {
    var part := Frame(body)[..k];
    if bodies == [] {
      assert Frames(bodies) + part == part;
      CutShortIsNothing(leftover, body, k);
    } else {
      Assoc(Frame(bodies[0]), Frames(bodies[1..]), part);
      NextIsRead(leftover, bodies[0], Frames(bodies[1..]) + part);
      FramesCutShort(leftover, bodies[1..], body, k);
    }
  }
}
