/** The Hybi13 protocol handler: the accept key and response of the opening
    handshake (section 4.2.2 of RFC 6455), and the receive path that buffers
    bytes across calls, unmasks frames and reassembles fragmented messages
    (section 5.4 of RFC 6455). */
module Hybi13Handler {
  import opened Wire
  import Utf8
  import HeaderBlock
  import opened Hybi13Frame

  // ---------------------------------------------------------------------
  // Opening handshake
  // ---------------------------------------------------------------------

  /** The fixed GUID appended to the client's nonce before digesting. */
  const GUID := "258EAFA5-E914-47DA-95CA-C5AB0DC85B11"

  const KEY_HEADER := "Sec-WebSocket-Key"

  /** CreateResponseKey: base64 of the SHA-1 digest of nonce + GUID. */
  function CreateResponseKey(requestKey: string, sha1: seq<byte> -> seq<byte>,
                             base64: seq<byte> -> string): (accept: string)
  {
    base64(sha1(Utf8.Encode(requestKey + GUID)))
  }

  /** The digest input is the nonce's bytes followed by the bytes of the GUID. */
  lemma ResponseKeyInput(requestKey: string, sha1: seq<byte> -> seq<byte>, base64: seq<byte> -> string)
    ensures CreateResponseKey(requestKey, sha1, base64) ==
            base64(sha1(Utf8.Encode(requestKey) + Utf8.Encode(GUID)))
  {
    Utf8.EncodeAppend(requestKey, GUID);
  }

  /** The four lines of the 101 response; the requested subprotocol is not echoed. */
  function HandshakeLines(request: HttpRequest, sha1: seq<byte> -> seq<byte>,
                          base64: seq<byte> -> string): (lines: seq<string>)
    ensures |lines| == 4
  {
    var accept := CreateResponseKey(OrEmpty(Header(request, KEY_HEADER)), sha1, base64);
    ["HTTP/1.1 101 Switching Protocols",
     "Upgrade: websocket",
     "Connection: Upgrade",
     "Sec-WebSocket-Accept: " + accept]
  }

  /** CreateHandshake: the response header block as bytes. */
  function CreateHandshake(request: HttpRequest, sha1: seq<byte> -> seq<byte>,
                           base64: seq<byte> -> string): (bytes: seq<byte>)
  {
    Utf8.Encode(HeaderBlock.Render(HandshakeLines(request, sha1, base64)))
  }

  /** The fixed parts of the response are plain header lines. */
  lemma StatusLinePlain()
    ensures HeaderBlock.PlainLine("HTTP/1.1 101 Switching Protocols")
  {
  }

  lemma UpgradeLinesPlain()
    ensures HeaderBlock.PlainLine("Upgrade: websocket")
    ensures HeaderBlock.PlainLine("Connection: Upgrade")
  {
  }

  lemma AcceptPrefixPlain()
    ensures HeaderBlock.PlainLine("Sec-WebSocket-Accept: ")
  {
  }

  /** A peer reading the response finds exactly the four lines and nothing after
      the blank line (given an accept key without CR, as base64 never has). */
  lemma HandshakeReadsBack(request: HttpRequest, sha1: seq<byte> -> seq<byte>, base64: seq<byte> -> string)
    requires '\r' !in CreateResponseKey(OrEmpty(Header(request, KEY_HEADER)), sha1, base64)
    ensures HeaderBlock.ReadBlock(CreateHandshake(request, sha1, base64)) ==
            Some((Utf8.EncodeEach(HandshakeLines(request, sha1, base64)), []))
  {
    var accept := CreateResponseKey(OrEmpty(Header(request, KEY_HEADER)), sha1, base64);
    StatusLinePlain();
    UpgradeLinesPlain();
    AcceptPrefixPlain();
    HeaderBlock.AppendPlain("Sec-WebSocket-Accept: ", accept);
    HeaderBlock.ReadFour("HTTP/1.1 101 Switching Protocols", "Upgrade: websocket",
                         "Connection: Upgrade", "Sec-WebSocket-Accept: " + accept);
  }

  /** The accept key of the nonce "dGhlIHNhbXBsZSBub25jZQ==" (section 1.3 of RFC 6455). */
  const EXAMPLE_ACCEPT := "s3pPLMBiTxaQ9kYGzzhZRbK+xOo="

  /** The lines of the example response for that nonce. */
  const EXAMPLE_LINES := [
    "HTTP/1.1 101 Switching Protocols",
    "Upgrade: websocket",
    "Connection: Upgrade",
    "Sec-WebSocket-Accept: " + EXAMPLE_ACCEPT]

  /** Given that nonce's accept key, the response is the example response,
      whatever else the request carries (its Sec-WebSocket-Protocol included). */
  lemma ExampleHandshake(request: HttpRequest, sha1: seq<byte> -> seq<byte>, base64: seq<byte> -> string)
    requires CreateResponseKey(OrEmpty(Header(request, KEY_HEADER)), sha1, base64) == EXAMPLE_ACCEPT
    ensures HandshakeLines(request, sha1, base64) == EXAMPLE_LINES
  {
  }

  // ---------------------------------------------------------------------
  // Receive: reassembly state machine
  // ---------------------------------------------------------------------

  /** Between frames: idle, or in the middle of a fragmented message. */
  datatype Assembly = Idle | Assembling(opcode: Opcode, partial: seq<byte>)

  /** What a received frame makes the handler report: a whole message (the
      onMessage callback) or a Close (the onClose callback), with the status
      code when the Close payload carries one. */
  datatype Event = Message(opcode: Opcode, payload: seq<byte>) | Closed(code: Option<uint16>)

  datatype Step = Step(events: seq<Event>, state: Assembly)

  /** The status code of a Close payload: its first two bytes, big-endian. */
  function CloseCode(payload: seq<byte>): (code: Option<uint16>)
    ensures code.Some? <==> |payload| >= 2
    ensures code.Some? ==> BigEndian(code.value, 2) == payload[..2]
  {
    if |payload| < 2 then None
    else
      assert payload[..2] == [payload[0], payload[1]];
      Some(payload[0] as int * 256 + payload[1] as int)
  }

  /** One frame through the state machine. Close reports at once and keeps the
      state; Text or Binary start a message (or finish it when final), but not
      in the middle of another (section 5.4 of RFC 6455); Continuation extends
      the message in progress; Ping and Pong change nothing; an opcode that
      section 5.2 of RFC 6455 leaves reserved is a violation. */
  function Apply(st: Assembly, f: Frame): (r: Result<Step, ProtocolError>)
  {
    if f.opcode == CLOSE then Success(Step([Closed(CloseCode(f.payload))], st))
    else if f.opcode == CONTINUATION then
      match st
      case Idle => Failure(UnexpectedContinuation)
      case Assembling(op, partial) =>
        if f.fin then Success(Step([Message(op, partial + f.payload)], Idle))
        else Success(Step([], Assembling(op, partial + f.payload)))
    else if f.opcode == TEXT || f.opcode == BINARY then
      if st.Assembling? then Failure(UnexpectedDataFrame)
      else if f.fin then Success(Step([Message(f.opcode, f.payload)], Idle))
      else Success(Step([], Assembling(f.opcode, f.payload)))
    else if f.opcode == PING || f.opcode == PONG then Success(Step([], st))
    else Failure(ReservedOpcode)
  }

  /** The outcome of processing a buffer: the events in order, the violation
      that stopped processing if any, the state, and the bytes left over. */
  datatype Drained = Drained(events: seq<Event>, failure: Option<ProtocolError>, state: Assembly, rest: seq<byte>)

  function Prepend(events: seq<Event>, d: Drained): (r: Drained)
  {
    Drained(events + d.events, d.failure, d.state, d.rest)
  }

  /** Processes whole frames from the front of buf until it is incomplete or a
      violation occurs; the frame that violates is not consumed. */
  function Drain(st: Assembly, buf: seq<byte>): (d: Drained)
    decreases |buf|
  {
    match ParseFrame(buf)
    case NeedMore => Drained([], None, st, buf)
    case Unmasked => Drained([], Some(UnmaskedFrame), st, buf)
    case Parsed(f, used) =>
      match Apply(st, f)
      case Failure(e) => Drained([], Some(e), st, buf)
      case Success(step) => Prepend(step.events, Drain(step.state, buf[used..]))
  }

  /** The bytes left over are a suffix of the buffer and, when nothing went
      wrong, not yet a whole frame. */
  lemma {:induction false} DrainRest(st: Assembly, buf: seq<byte>)
    ensures var d := Drain(st, buf);
      && |d.rest| <= |buf| && d.rest == buf[|buf| - |d.rest|..]
      && (d.failure.None? ==> ParseFrame(d.rest) == NeedMore)
    decreases |buf|
  {
    match ParseFrame(buf)
    case NeedMore =>
    case Unmasked =>
    case Parsed(f, used) =>
      match Apply(st, f)
      case Failure(e) =>
      case Success(step) =>
        DrainRest(step.state, buf[used..]);
  }

  lemma PrependPrepend(a: seq<Event>, b: seq<Event>, d: Drained)
    ensures Prepend(a, Prepend(b, d)) == Prepend(a + b, d)
  {
    assert a + (b + d.events) == (a + b) + d.events;
  }

  /** Receiving a and then b is receiving a + b: chunk boundaries do not matter. */
  lemma {:induction false} DrainAppend(st: Assembly, a: seq<byte>, b: seq<byte>)
    ensures var d := Drain(st, a);
      Drain(st, a + b) ==
        if d.failure.None? then Prepend(d.events, Drain(d.state, d.rest + b))
        else Drained(d.events, d.failure, d.state, d.rest + b)
    decreases |a|
  {
    match ParseFrame(a)
    case NeedMore =>
      assert [] + Drain(st, a + b).events == Drain(st, a + b).events;
    case Unmasked =>
      ParseStable(a, b);
    case Parsed(f, used) =>
      ParseStable(a, b);
      match Apply(st, f)
      case Failure(e) =>
      case Success(step) =>
        assert (a + b)[used..] == a[used..] + b;
        DrainAppend(step.state, a[used..], b);
        var d' := Drain(step.state, a[used..]);
        if d'.failure.None? {
          PrependPrepend(step.events, d'.events, Drain(d'.state, d'.rest + b));
        }
  }

  lemma DrainEmpty(st: Assembly)
    ensures Drain(st, []) == Drained([], None, st, [])
  {
  }

  /** A frame that Apply accepts, followed by more bytes: its events come first. */
  lemma DrainFrame(st: Assembly, f: Frame, rest: seq<byte>)
    requires f.mask.Some? && |f.payload| < TWO64
    requires Apply(st, f).Success?
    ensures Drain(st, Encode(f) + rest) ==
            Prepend(Apply(st, f).value.events, Drain(Apply(st, f).value.state, rest))
  {
    ParseEncoded(f, rest);
    assert (Encode(f) + rest)[|Encode(f)|..] == rest;
  }

  /** A final masked Text or Binary frame delivers exactly its payload, once,
      whatever its length class. */
  lemma FinalFrameDelivers(f: Frame)
    requires f.mask.Some? && |f.payload| < TWO64
    requires f.fin && (f.opcode == TEXT || f.opcode == BINARY)
    ensures Drain(Idle, Encode(f)) == Drained([Message(f.opcode, f.payload)], None, Idle, [])
  {
    DrainFrame(Idle, f, []);
    assert Encode(f) + [] == Encode(f);
  }

  /** A non-final first fragment delivers nothing and starts assembling. */
  lemma NonFinalFrameWaits(f: Frame)
    requires f.mask.Some? && |f.payload| < TWO64
    requires !f.fin && (f.opcode == TEXT || f.opcode == BINARY)
    ensures Drain(Idle, Encode(f)) == Drained([], None, Assembling(f.opcode, f.payload), [])
  {
    DrainFrame(Idle, f, []);
    assert Encode(f) + [] == Encode(f);
  }

  /** A first fragment and a final continuation, each with its own mask key,
      received in two calls deliver one message: the two payloads in order. */
  lemma FragmentsJoin(first: Frame, last: Frame)
    requires first.mask.Some? && |first.payload| < TWO64
    requires last.mask.Some? && |last.payload| < TWO64
    requires !first.fin && (first.opcode == TEXT || first.opcode == BINARY)
    requires last.fin && last.opcode == CONTINUATION
    ensures var d := Drain(Idle, Encode(first));
      && d == Drained([], None, Assembling(first.opcode, first.payload), [])
      && Drain(d.state, d.rest + Encode(last)) ==
         Drained([Message(first.opcode, first.payload + last.payload)], None, Idle, [])
  {
    NonFinalFrameWaits(first);
    assert [] + Encode(last) == Encode(last) + [];
    DrainFrame(Assembling(first.opcode, first.payload), last, []);
  }

  /** A continuation with no message in progress is a violation. */
  lemma UnexpectedContinuationFails(f: Frame)
    requires f.mask.Some? && |f.payload| < TWO64
    requires f.opcode == CONTINUATION
    ensures Drain(Idle, Encode(f)) == Drained([], Some(UnexpectedContinuation), Idle, Encode(f))
  {
    ParseEncoded(f, []);
    assert Encode(f) + [] == Encode(f);
  }

  /** A new Text or Binary frame in the middle of a fragmented message is a violation. */
  lemma InterleavedDataFails(op: Opcode, partial: seq<byte>, f: Frame)
    requires f.mask.Some? && |f.payload| < TWO64
    requires f.opcode == TEXT || f.opcode == BINARY
    ensures Drain(Assembling(op, partial), Encode(f)).failure == Some(UnexpectedDataFrame)
  {
    ParseEncoded(f, []);
    assert Encode(f) + [] == Encode(f);
  }

  /** A Close frame reports Closed with its status code and leaves the state alone. */
  lemma CloseReports(st: Assembly, f: Frame)
    requires f.mask.Some? && |f.payload| < TWO64
    requires f.opcode == CLOSE
    ensures Drain(st, Encode(f)) == Drained([Closed(CloseCode(f.payload))], None, st, [])
  {
    DrainFrame(st, f, []);
    assert Encode(f) + [] == Encode(f);
  }

  /** Ping and Pong frames pass through without events, in any state. */
  lemma PingPongIgnored(st: Assembly, f: Frame)
    requires f.mask.Some? && |f.payload| < TWO64
    requires f.opcode == PING || f.opcode == PONG
    ensures Drain(st, Encode(f)) == Drained([], None, st, [])
  {
    DrainFrame(st, f, []);
    assert Encode(f) + [] == Encode(f);
  }

  /** A frame with a reserved opcode is a violation and nothing is consumed. */
  lemma ReservedOpcodeFails(st: Assembly, f: Frame)
    requires f.mask.Some? && |f.payload| < TWO64
    requires f.opcode !in {CONTINUATION, TEXT, BINARY, CLOSE, PING, PONG}
    ensures Drain(st, Encode(f)) == Drained([], Some(ReservedOpcode), st, Encode(f))
  {
    ParseEncoded(f, []);
    assert Encode(f) + [] == Encode(f);
  }

  /** The handler's close test: code 1000 comes back as 1000. */
  lemma CloseCodeExample()
    ensures CloseCode(BigEndian(1000, 2)) == Some(1000)
  {
  }

  /** Bytes the server would send (never masked) are refused when received. */
  lemma UnmaskedFails(st: Assembly, s: string)
    ensures Drain(st, FrameText(s)).failure == Some(UnmaskedFrame)
    ensures Drain(st, FrameText(s)).events == []
  {
    ParseUnmaskedEncoded(Frame(true, TEXT, None, Utf8.Encode(s)), []);
    assert FrameText(s) + [] == FrameText(s);
  }

  /** A frame split anywhere across two receives is delivered exactly once,
      when its last byte arrives. */
  lemma SplitFrameDelivers(f: Frame, k: nat)
    requires f.mask.Some? && |f.payload| < TWO64
    requires f.fin && (f.opcode == TEXT || f.opcode == BINARY)
    requires k < |Encode(f)|
    ensures var e := Encode(f); var d := Drain(Idle, e[..k]);
      && d == Drained([], None, Idle, e[..k])
      && Drain(d.state, d.rest + e[k..]) == Drained([Message(f.opcode, f.payload)], None, Idle, [])
  {
    var e := Encode(f);
    PrefixNeedsMore(f, k);
    assert e[..k] + e[k..] == e;
    FinalFrameDelivers(f);
  }

  /** The per-connection receiver: the bytes not yet consumed and the
      reassembly state, both kept from one Receive call to the next. */
  class Hybi13Receiver {
    var buffer: seq<byte>
    var assembly: Assembly

    constructor ()
      ensures buffer == [] && assembly == Idle
    {
      buffer := [];
      assembly := Idle;
    }

    /** Recieve: appends the chunk, then handles every whole frame in the
        buffer, in order, and reports their events; stops at a violation. */
    method Receive(chunk: seq<byte>) returns (events: seq<Event>, failure: Option<ProtocolError>)
      modifies this
      ensures Drain(old(assembly), old(buffer) + chunk) == Drained(events, failure, assembly, buffer)
    {
      buffer := buffer + chunk;
      events := [];
      failure := None;
      ghost var goal := Drain(assembly, buffer);
      while true
        invariant goal == Prepend(events, Drain(assembly, buffer))
        invariant failure.None?
        decreases |buffer|
      {
        var p := ParseFrame(buffer);
        if p.NeedMore? {
          break;
        }
        if p.Unmasked? {
          failure := Some(UnmaskedFrame);
          break;
        }
        var r := Apply(assembly, p.frame);
        if r.Failure? {
          failure := Some(r.error);
          break;
        }
        PrependPrepend(events, r.value.events, Drain(r.value.state, buffer[p.used..]));
        events := events + r.value.events;
        assembly := r.value.state;
        buffer := buffer[p.used..];
      }
      assert events + [] == events;
    }
  }
}
