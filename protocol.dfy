/** The exchange `main` runs once connected: greeting, "OK\n", instruction,
    result, closing message. The channel is a queue of inbound segments and
    a log of sent lines. */
module Protocol {
  import opened Wrappers
  import opened CLib
  import opened Framer
  import opened Evaluator

  /** The text the greeting must contain. */
  const Marker: seq<char> := "TEXT TCP 1.0"
  /** The acknowledgement of an accepted greeting. */
  const Ack: seq<char> := "OK\n"

  /** How the process ends. */
  datatype Ending =
    | Finished(greetingOk: bool)          // `main` returns, after "Test OK" or "Test ERROR"
    | ReceiveExit(outcome: RecvOutcome)   // `receiveMessage` calls `exit`
    | Undefined(error: EvalError)         // the instruction triggers undefined behaviour

  datatype Exit = ExitSuccess | ExitFailure

  /** The process status of an ending. `main` returns EXIT_SUCCESS even when
      the greeting is wrong, and `receiveMessage` exits with EXIT_SUCCESS when
      the peer has closed, whatever the step. */
  function ExitCode(e: Ending): Exit {
    match e
    case Finished(_) => ExitSuccess
    case ReceiveExit(o) => if o == PeerClosed then ExitSuccess else ExitFailure
    case Undefined(_) => ExitFailure
  }

  /** What a session did: the lines it sent, in order, how many receives it
      made, and how it ended. */
  datatype Trace = Trace(sent: seq<seq<char>>, receives: nat, ending: Ending)

  /** The reference exchange on inbound channel `q`, phase by phase. Awaiting
      the greeting: a failed receive ends the process, a greeting without the
      marker ends `main`, otherwise "OK\n" is sent. */
  function Exchange(q: seq<Segment>, ext: Externals): Trace {
    if Outcome(q) != Accepted then Trace([], 1, ReceiveExit(Outcome(q)))
    else if !Contains(Text(q), Marker) then Trace([], 1, Finished(false))
    else AwaitInstruction(Rest(q), ext)
  }

  /** Awaiting the instruction, after "OK\n": receive it and send the reply. */
  function AwaitInstruction(q: seq<Segment>, ext: Externals): Trace {
    if Outcome(q) != Accepted then Trace([Ack], 2, ReceiveExit(Outcome(q)))
    else match Respond(Text(q), ext)
      case Err(e) => Trace([Ack], 2, Undefined(e))
      case Ok(reply) => AwaitClosing(Rest(q), reply)
  }

  /** Awaiting the closing message, after the reply: receive it and finish. */
  function AwaitClosing(q: seq<Segment>, reply: seq<char>): Trace {
    if Outcome(q) != Accepted then Trace([Ack, reply], 3, ReceiveExit(Outcome(q)))
    else Trace([Ack, reply], 3, Finished(true))
  }

  // ---------------------------------------------------------------------------
  // The session as `main` runs it

  class Session {
    const ext: Externals
    /** `response_buffer`, reused by every receive. */
    const buffer: array<char>
    /** What the channel has yet to deliver. */
    var inbound: seq<Segment>
    /** Every line sent so far, oldest first. */
    var sent: seq<seq<char>>
    /** How many times `receiveMessage` was called. */
    var receives: nat

    ghost predicate Valid()
      reads this
    {
      buffer.Length == BufferSize
    }

    constructor (q: seq<Segment>, ext: Externals)
      ensures Valid() && fresh(buffer)
      ensures this.ext == ext && inbound == q && sent == [] && receives == 0
    {
      this.ext := ext;
      buffer := new char[BufferSize];
      inbound := q;
      sent := [];
      receives := 0;
    }

    /** `receiveMessage`: zero the buffer, read one segment into it, classify
        the count. The outcomes other than Accepted end the process; the
        caller stops on them. */
    method ReceiveMessage() returns (o: RecvOutcome)
      requires Valid()
      modifies this, buffer
      ensures Valid()
      ensures buffer[..] == Filled(old(inbound))
      ensures o == Outcome(old(inbound))
      ensures inbound == Rest(old(inbound)) && receives == old(receives) + 1
      ensures sent == old(sent)
    {
      // Clear the whole buffer to NUL.
      var i := 0;
      while i < buffer.Length
        invariant 0 <= i <= buffer.Length
        invariant forall j :: 0 <= j < i ==> buffer[j] == NUL
        modifies buffer
      {
        buffer[i] := NUL;
        i := i + 1;
      }
      // Read at most one segment into the front of the buffer.
      var n := RecvCount(inbound);
      var p := Payload(inbound);
      i := 0;
      while i < |p|
        invariant 0 <= i <= |p|
        invariant forall j :: 0 <= j < i ==> buffer[j] == p[j]
        invariant forall j :: i <= j < buffer.Length ==> buffer[j] == NUL
        modifies buffer
      {
        buffer[i] := p[i];
        i := i + 1;
      }
      assert forall j :: 0 <= j < BufferSize ==> buffer[j] == Filled(inbound)[j];
      inbound := Rest(inbound);
      receives := receives + 1;
      o := Classify(n);
    }

    /** `sendMessage`. */
    method SendMessage(m: seq<char>)
      modifies this
      ensures sent == old(sent) + [m]
      ensures inbound == old(inbound) && receives == old(receives)
    {
      sent := sent + [m];
    }

    /** `computeAndSendResult(response_buffer, ...)`: read the instruction out
        of the buffer, compute the reply and send it. On undefined behaviour
        nothing is sent and the error is returned. */
    method ComputeAndSendResult() returns (err: Option<EvalError>)
      requires Valid()
      modifies this
      ensures var r := Respond(CString(buffer[..]), ext);
        (r.Ok? ==> err == None && sent == old(sent) + [r.value]) &&
        (r.Err? ==> err == Some(r.error) && sent == old(sent))
      ensures inbound == old(inbound) && receives == old(receives)
    {
      var instruction := ReadCString(buffer, 0);
      var r := Respond(instruction, ext);
      if r.Err? {
        return Some(r.error);
      }
      SendMessage(r.value);
      err := None;
    }

    /** `main` from the first receive to `close`: the greeting phase. */
    method Run() returns (ending: Ending)
      requires Valid() && sent == [] && receives == 0
      modifies this, buffer
      ensures Trace(sent, receives, ending) == Exchange(old(inbound), ext)
    {
      ghost var q := inbound;
      var o := ReceiveMessage();
      if o != Accepted {
        return ReceiveExit(o);
      }
      var greeting := ReadCString(buffer, 0);
      assert greeting == Text(q) by {
        assert buffer[0..] == buffer[..];
      }
      if !Contains(greeting, Marker) {
        // The greeting is rejected; `main` reports the error and returns.
        return Finished(false);
      }
      SendMessage(Ack);
      ending := InstructionPhase();
    }

    /** The instruction phase of `main`, after "OK\n" was sent. */
    method InstructionPhase() returns (ending: Ending)
      requires Valid() && sent == [Ack] && receives == 1
      modifies this, buffer
      ensures Trace(sent, receives, ending) == AwaitInstruction(old(inbound), ext)
    {
      ghost var q := inbound;
      var o := ReceiveMessage();
      if o != Accepted {
        return ReceiveExit(o);
      }
      ghost var reply := Respond(Text(q), ext);
      var err := ComputeAndSendResult();
      if err.Some? {
        assert reply == Err(err.value);
        return Undefined(err.value);
      }
      assert reply.Ok? && sent == [Ack, reply.value];
      assert AwaitInstruction(q, ext) == AwaitClosing(inbound, reply.value);
      ending := ClosingPhase();
    }

    /** The closing phase of `main`, after the reply was sent: the closing
        message is printed, then "Test OK". */
    method ClosingPhase() returns (ending: Ending)
      requires Valid() && |sent| == 2 && sent[0] == Ack && receives == 2
      modifies this, buffer
      ensures Trace(sent, receives, ending) == AwaitClosing(old(inbound), old(sent[1]))
    {
      var o := ReceiveMessage();
      if o != Accepted {
        return ReceiveExit(o);
      }
      ending := Finished(true);
    }
  }

  // ---------------------------------------------------------------------------
  // Properties of the exchange

  /** The session is single-shot: at most three receives and two sends, and
      the first line sent, if any, is the acknowledgement. */
  lemma ExchangeIsBounded(q: seq<Segment>, ext: Externals)
    ensures var t := Exchange(q, ext);
      1 <= t.receives <= 3 && |t.sent| <= 2 && |t.sent| < t.receives + 1 &&
      (t.sent != [] ==> t.sent[0] == Ack)
  {
    if Outcome(q) == Accepted && Contains(Text(q), Marker) {
      var q1 := Rest(q);
      if Outcome(q1) == Accepted && Respond(Text(q1), ext).Ok? {
        assert Exchange(q, ext) == AwaitClosing(Rest(q1), Respond(Text(q1), ext).value);
      }
    }
  }

  /** A greeting without the marker: nothing is sent, nothing more is
      received, and the process still reports success. */
  lemma GreetingMismatch(q: seq<Segment>, ext: Externals)
    requires Outcome(q) == Accepted && !Contains(Text(q), Marker)
    ensures Exchange(q, ext) == Trace([], 1, Finished(false))
    ensures ExitCode(Exchange(q, ext).ending) == ExitSuccess
  {
  }

  /** A greeting with the marker and a well-defined instruction: the client
      sends exactly "OK\n" then the reply, in that order, and makes exactly
      three receives (greeting, instruction, closing message). */
  lemma GreetingMatch(q: seq<Segment>, ext: Externals)
    requires Outcome(q) == Accepted && Contains(Text(q), Marker)
    requires Outcome(Rest(q)) == Accepted && Respond(Text(Rest(q)), ext).Ok?
    ensures Exchange(q, ext).sent == [Ack, Respond(Text(Rest(q)), ext).value]
    ensures Exchange(q, ext).receives == 3
    ensures Exchange(q, ext).ending ==
      if Outcome(Rest(Rest(q))) == Accepted then Finished(true)
      else ReceiveExit(Outcome(Rest(Rest(q))))
  {
  }

  /** Anything sent is sent only after a valid greeting, and the second line is
      the reply to the instruction received second. */
  lemma SendsFollowGreeting(q: seq<Segment>, ext: Externals)
    ensures var t := Exchange(q, ext);
      (t.sent != [] ==> Outcome(q) == Accepted && Contains(Text(q), Marker)) &&
      (|t.sent| == 2 ==> Outcome(Rest(q)) == Accepted &&
                         Respond(Text(Rest(q)), ext) == Ok(t.sent[1]))
  {
  }

  /** A receive that fails ends the exchange at once: no later line is sent,
      and only a closed peer gives a successful exit. */
  lemma ReceiveFailureStops(q: seq<Segment>, ext: Externals)
    requires Outcome(q) != Accepted
    ensures Exchange(q, ext) == Trace([], 1, ReceiveExit(Outcome(q)))
    ensures ExitCode(Exchange(q, ext).ending) == ExitSuccess <==> Outcome(q) == PeerClosed
  {
  }

  /** An accepted greeting followed by an instruction step that fails: a
      receive that is not accepted (transport error, peer closed, oversized)
      or an instruction with undefined behaviour. The session stops there,
      having sent only "OK\n" and made two receives. */
  lemma InstructionFailureStops(q: seq<Segment>, ext: Externals)
    requires Outcome(q) == Accepted && Contains(Text(q), Marker)
    requires Outcome(Rest(q)) != Accepted || Respond(Text(Rest(q)), ext).Err?
    ensures Exchange(q, ext).sent == [Ack] && Exchange(q, ext).receives == 2
    ensures Outcome(Rest(q)) != Accepted ==>
      Exchange(q, ext).ending == ReceiveExit(Outcome(Rest(q)))
    ensures Outcome(Rest(q)) == Accepted ==>
      Exchange(q, ext).ending == Undefined(Respond(Text(Rest(q)), ext).error)
  {
  }

  /** The peer closing in the middle of the exchange also exits with success. */
  lemma PeerClosedBeforeInstruction(q: seq<Segment>, ext: Externals)
    requires Outcome(q) == Accepted && Contains(Text(q), Marker)
    requires Rest(q) == []
    ensures Exchange(q, ext) == Trace([Ack], 2, ReceiveExit(PeerClosed))
    ensures ExitCode(Exchange(q, ext).ending) == ExitSuccess
  {
  }

  /** The exact marker: "TEXT TCP 1.0" passes, "TCP 1.0" alone does not. */
  lemma MarkerExamples()
    ensures Contains("TEXT TCP 1.0\n", Marker)
    ensures !Contains("TCP 1.0\n", Marker)
  {
    assert ("TEXT TCP 1.0\n")[..|Marker|] == Marker;
  }

  /** A segment of 1 to 100 bytes without NUL is accepted and read whole. */
  lemma ReceivedText(q: seq<Segment>, d: seq<char>)
    requires q != [] && q[0] == Bytes(d)
    requires 1 <= |d| <= MaxMessage && NUL !in d
    ensures Outcome(q) == Accepted && Text(q) == d
  {
    AcceptedMessage(q);
    CStringOfText(d);
  }

  /** The instruction "mul 7 3", with the operands 7 and 3, after a valid
      greeting and followed by a closing message: "OK\n" then "21\n" are sent
      and `main` finishes with "Test OK". */
  lemma MulExchange(q: seq<Segment>, ext: Externals)
    requires ext.scanOperands("mul 7 3") == Some((7.0, 3.0))
    requires Outcome(q) == Accepted && Text(q) == "TEXT TCP 1.0\n"
    requires Outcome(Rest(q)) == Accepted && Text(Rest(q)) == "mul 7 3"
    requires Outcome(Rest(Rest(q))) == Accepted
    ensures Exchange(q, ext) == Trace(["OK\n", "21\n"], 3, Finished(true))
  {
    MarkerExamples();
    RespondMulExample(ext);
    GreetingMatch(q, ext);
  }

  /** Three short NUL-free segments are received whole, one per receive. */
  lemma ThreeSegments(g: seq<char>, m: seq<char>, c: seq<char>)
    requires 1 <= |g| <= MaxMessage && NUL !in g
    requires 1 <= |m| <= MaxMessage && NUL !in m
    requires 1 <= |c| <= MaxMessage && NUL !in c
    ensures var q := [Bytes(g), Bytes(m), Bytes(c)];
      Outcome(q) == Accepted && Text(q) == g &&
      Outcome(Rest(q)) == Accepted && Text(Rest(q)) == m &&
      Outcome(Rest(Rest(q))) == Accepted
  {
    var q := [Bytes(g), Bytes(m), Bytes(c)];
    assert Rest(q) == [Bytes(m), Bytes(c)];
    assert Rest(Rest(q)) == [Bytes(c)];
    ReceivedText(q, g);
    ReceivedText(Rest(q), m);
    ReceivedText(Rest(Rest(q)), c);
  }

  /** A concrete channel for that exchange. */
  lemma ExchangeExample(ext: Externals)
    requires ext.scanOperands("mul 7 3") == Some((7.0, 3.0))
    ensures Exchange([Bytes("TEXT TCP 1.0\n"), Bytes("mul 7 3"), Bytes("BYE\n")], ext)
         == Trace(["OK\n", "21\n"], 3, Finished(true))
  {
    var g, m, c := "TEXT TCP 1.0\n", "mul 7 3", "BYE\n";
    assert NUL !in g && NUL !in m && NUL !in c;
    ThreeSegments(g, m, c);
    MulExchange([Bytes(g), Bytes(m), Bytes(c)], ext);
  }
}
