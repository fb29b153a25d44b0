/** The two ends of a connection: JSONOutput writes messages, the server loop reads. */
module JSONRPCDispatcher {
  import opened Bytes
  import opened Decimals
  import opened Framing
  import opened JsonParse
  import opened JsonRoundTrip
  import opened JsonText
  import opened Options
  import opened Sequences

  class JSONOutput {
    var outs: seq<Byte>

    constructor ()
      ensures outs == []
    {
      outs := [];
    }

    /** Writes the header and the text of a message. */
    method WriteMessage(text: seq<Byte>)
      modifies this
      ensures outs == old(outs) + Frame(text)
    {
      outs := outs + CONTENT_LENGTH;
      outs := outs + Digits(|text|);
      outs := outs + END_OF_LINE + END_OF_LINE;
      outs := outs + text;
    }
  }

  /** Writes messages one after the other. */
  method WriteAll(output: JSONOutput, texts: seq<seq<Byte>>)
    modifies output
    ensures output.outs == old(output.outs) + Frames(texts)
  {
    ghost var all := output.outs + Frames(texts);
    var i := 0;
    while i < |texts|
      invariant i <= |texts| && output.outs + Frames(texts[i..]) == all
    {
      assert texts[i..][1..] == texts[i + 1..];
      assert output.outs + Frames(texts[i..]) == output.outs + Frame(texts[i]) + Frames(texts[i + 1..]);
      output.WriteMessage(texts[i]);
      i := i + 1;
    }
  }

  class InputStream {
    var rest: seq<Byte>
    var good: bool

    constructor (text: seq<Byte>)
      ensures State() == Input(text, true)
    {
      rest := text;
      good := true;
    }

    function State(): Input
      reads this
    {
      Input(rest, good)
    }

    method GetLine() returns (line: seq<Byte>)
      requires good
      modifies this
      ensures (line, State()) == Framing.GetLine(old(State()))
    {
      var n := 0;
      while n < |rest| && rest[n] != NEWLINE
        invariant n <= |rest| && LineLength(rest) == n + LineLength(rest[n..])
      {
        assert rest[n..][1..] == rest[n + 1..];
        n := n + 1;
      }
      if n < |rest| {
        line := rest[..n];
        rest := rest[n + 1..];
      } else {
        line := rest;
        rest := [];
        good := false;
      }
    }

    method Ignore(n: nat)
      modifies this
      ensures State() == Skip(old(State()), n)
    {
      if good && n < MAX_STREAM {
        if n <= |rest| {
          rest := rest[n..];
        } else {
          rest := [];
          good := false;
        }
      }
    }

    /** True when all of it was there. */
    method Read(n: nat) returns (ok: bool, buffer: seq<Byte>)
      modifies this
      ensures ok == (old(good) && n <= |old(rest)|)
      ensures ok ==> buffer == old(rest)[..n] && State() == Input(old(rest)[n..], true)
      ensures !ok ==> State() == if old(good) then Input([], false) else old(State())
    {
      ok := good && n <= |rest|;
      buffer := [];
      if ok {
        buffer := rest[..n];
        rest := rest[n..];
      } else if good {
        rest := [];
        good := false;
      }
    }

    method ReadStandardMessage(leftover: Leftover) returns (message: Option<seq<Byte>>)
      modifies this
      ensures (message, State()) == ReadMessage(leftover, old(State()))
    {
      var contentLength: nat := 0;
      while good
        invariant ReadHeaders(leftover, State(), contentLength) == ReadHeaders(leftover, old(State()), 0)
        decreases |rest|, good
      {
        var line := GetLine();
        if line != [] && line[0] == HASH {
          continue;
        }
        if CONTENT_LENGTH <= line {
          contentLength := NewLength(leftover, Trim(line[|CONTENT_LENGTH|..]), contentLength);
          continue;
        } else if Trim(line) != [] {
          continue;
        } else {
          assert (State(), contentLength) == ReadHeaders(leftover, old(State()), 0);
          break;
        }
      }
      assert (State(), contentLength) == ReadHeaders(leftover, old(State()), 0);
      if contentLength > MAX_LENGTH {
        Ignore(contentLength);
        return None;
      }
      if contentLength > 0 {
        var ok, json := Read(contentLength);
        if !ok {
          return None;
        }
        return Some(json);
      } else {
        return None;
      }
    }

    /** The server loop, without what it does with each message. */
    method RunLoop(leftover: Leftover) returns (messages: seq<seq<Byte>>)
      modifies this
      ensures messages == ReadAll(leftover, old(State())) && !good
    {
      messages := [];
      while good
        invariant messages + ReadAll(leftover, State()) == ReadAll(leftover, old(State()))
        decreases |rest|, good
      {
        ReadAllStep(leftover, State(), messages);
        var message := ReadStandardMessage(leftover);
        if message.Some? {
          messages := messages + [message.value];
        }
      }
    }
  }

  lemma ReadAllStep(leftover: Leftover, input: Input, messages: seq<seq<Byte>>)
    requires input.good
    ensures var (message, next) := ReadMessage(leftover, input);
            messages + ReadAll(leftover, input) ==
            (if message.Some? then messages + [message.value] else messages) + ReadAll(leftover, next)
  {
    var (message, next) := ReadMessage(leftover, input);
    if message.Some? {
      Assoc(messages, [message.value], ReadAll(leftover, next));
    } else {
      assert [] + ReadAll(leftover, next) == ReadAll(leftover, next);
    }
  }

  /** What one end writes, the other reads: all messages, in order. */
  method Transmit(leftover: Leftover, texts: seq<seq<Byte>>) returns (received: seq<seq<Byte>>)
    requires forall i :: 0 <= i < |texts| ==> Delivered(texts[i])
    ensures received == texts
  {
    var output := new JSONOutput();
    WriteAll(output, texts);
    assert [] + Frames(texts) == Frames(texts);
    var input := new InputStream(output.outs);
    received := input.RunLoop(leftover);
    FramesAreRead(leftover, texts);
    AllDelivered(texts);
  }

  lemma {:induction false} AllDelivered(texts: seq<seq<Byte>>)
    requires forall i :: 0 <= i < |texts| ==> Delivered(texts[i])
    ensures DeliveredOf(texts) == texts
  {
    if texts != [] {
      AllDelivered(texts[1..]);
      assert [texts[0]] + texts[1..] == texts;
    }
  }

  // ---------- Values ----------

  function PrintAll(io: NumberIO, es: seq<Json>, style: Style): seq<seq<Byte>> {
    if es == [] then [] else [Print(io, es[0], style, 0)] + PrintAll(io, es[1..], style)
  }

  /** What the server loop parses; a text that is not JSON is only logged. */
  function ParseAll(io: NumberIO, texts: seq<seq<Byte>>): seq<Json> {
    if texts == [] then []
    else
      var r := ParseDocument(io, texts[0]);
      (if r.Good? then [r.value] else []) + ParseAll(io, texts[1..])
  }

  lemma {:induction false} PrintedIsParsed(io: NumberIO, es: seq<Json>, style: Style)
    requires forall i :: 0 <= i < |es| ==> Valid(io, es[i])
    ensures ParseAll(io, PrintAll(io, es, style)) == es
  {
    if es != [] {
      PrintThenParse(io, es[0], style);
      PrintedIsParsed(io, es[1..], style);
      assert PrintAll(io, es, style)[1..] == PrintAll(io, es[1..], style);
      assert [es[0]] + es[1..] == es;
    }
  }

  lemma {:induction false} PrintedAreDelivered(io: NumberIO, es: seq<Json>, style: Style)
    requires forall i :: 0 <= i < |es| ==> Valid(io, es[i]) && |Print(io, es[i], style, 0)| <= MAX_LENGTH
    ensures forall i :: 0 <= i < |PrintAll(io, es, style)| ==> Delivered(PrintAll(io, es, style)[i])
  {
    if es != [] {
      PrintThenParse(io, es[0], style);
      PrintedAreDelivered(io, es[1..], style);
      assert forall i :: 0 < i < |PrintAll(io, es, style)| ==> PrintAll(io, es, style)[i] == PrintAll(io, es[1..], style)[i - 1];
    }
  }

  /** Main result: JSON values printed and sent by one end, in any style, are the
      values that the other end reads and parses. */
  lemma ValuesArrive(leftover: Leftover, io: NumberIO, es: seq<Json>, style: Style)
    requires forall i :: 0 <= i < |es| ==> Valid(io, es[i]) && |Print(io, es[i], style, 0)| <= MAX_LENGTH
    ensures ParseAll(io, ReadAll(leftover, Input(Frames(PrintAll(io, es, style)), true))) == es
  {
    PrintedAreDelivered(io, es, style);
    FramesAreRead(leftover, PrintAll(io, es, style));
    AllDelivered(PrintAll(io, es, style));
    PrintedIsParsed(io, es, style);
  }
}
