/** One call of `receiveMessage`: clear the buffer, read what the channel
    delivers into it and classify the byte count. */
module Framer {
  import opened CLib

  /** `BUFFER_SIZE`, the size of the client's `response_buffer`. */
  const BufferSize: nat := 2000
  /** The largest message `receiveMessage` accepts. */
  const MaxMessage: nat := 100

  /** What one `recv` call finds on the channel: some bytes (at most
      `BufferSize` of which are read), or a transport error. Once the inbound
      queue is empty the peer has closed the stream. */
  datatype Segment = Bytes(data: seq<char>) | Broken

  /** The value `recv(fd, buffer, BufferSize, 0)` returns. */
  function RecvCount(q: seq<Segment>): (n: int)
    ensures -1 <= n <= BufferSize
    ensures n < 0 <==> q != [] && q[0].Broken?
    ensures n == 0 <==> q == [] || q[0] == Bytes([])
    ensures n > 0 ==> n == (if |q[0].data| < BufferSize then |q[0].data| else BufferSize)
  {
    if q == [] then 0
    else match q[0]
      case Broken => -1
      case Bytes(d) => if |d| < BufferSize then |d| else BufferSize
  }

  /** The bytes that `recv` writes into the buffer. */
  function Payload(q: seq<Segment>): (p: seq<char>)
    ensures |p| == (if RecvCount(q) < 0 then 0 else RecvCount(q))
    ensures p != [] ==> p == q[0].data[..|p|]
  {
    if RecvCount(q) <= 0 then [] else q[0].data[..RecvCount(q)]
  }

  /** The whole buffer after `memset` to zero and `recv`. */
  function Filled(q: seq<Segment>): (b: seq<char>)
    ensures |b| == BufferSize
    ensures forall j :: 0 <= j < BufferSize ==>
      b[j] == if j < |Payload(q)| then Payload(q)[j] else NUL
  {
    var p := Payload(q);
    p + seq(BufferSize - |p|, _ => NUL)
  }

  /** The channel after one `recv`. */
  function Rest(q: seq<Segment>): seq<Segment> {
    if q == [] then [] else q[1..]
  }

  datatype RecvOutcome = TransportError | PeerClosed | Oversized | Accepted

  /** `receiveMessage`'s reading of the count `recv` returned. */
  function Classify(n: int): (o: RecvOutcome)
    ensures o == TransportError <==> n < 0
    ensures o == PeerClosed <==> n == 0
    ensures o == Oversized <==> n > MaxMessage
    ensures o == Accepted <==> 1 <= n <= MaxMessage
  {
    if n < 0 then TransportError
    else if n == 0 then PeerClosed
    else if n > MaxMessage then Oversized
    else Accepted
  }

  /** The outcome of the next receive on channel `q`. */
  function Outcome(q: seq<Segment>): RecvOutcome {
    Classify(RecvCount(q))
  }

  /** The text a receive leaves in the buffer, read as a C string. */
  function Text(q: seq<Segment>): seq<char> {
    CString(Filled(q))
  }

  /** An accepted message is the whole segment the channel delivered, at most
      `MaxMessage` bytes, and the text the client goes on to read is that
      segment up to its first NUL: the zero fill terminates it. */
  lemma AcceptedMessage(q: seq<Segment>)
    requires Outcome(q) == Accepted
    ensures q != [] && q[0].Bytes? && 1 <= |q[0].data| <= MaxMessage
    ensures Payload(q) == q[0].data
    ensures Text(q) == CString(q[0].data)
  {
    var p := Payload(q);
    assert p == q[0].data;
    CStringPadded(p, seq(BufferSize - |p|, _ => NUL));
  }
}
