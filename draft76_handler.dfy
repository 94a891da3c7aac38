/** The Draft76 protocol handler: the MD5-challenge handshake response, and
    delimiter framing (a 0x00 byte, the UTF-8 text, a 0xFF byte) with a
    receive path that buffers bytes until a frame's terminator arrives. */
module Draft76Handler {
  import opened Wire
  import Utf8
  import HeaderBlock
  import opened HandshakeHandler

  const START: byte := 0x00
  const END: byte := 0xFF

  // ---------------------------------------------------------------------
  // Framing
  // ---------------------------------------------------------------------

  /** FrameText: the start byte, the UTF-8 text, the end byte. */
  function FrameText(s: string): (bytes: seq<byte>)
  {
    [START] + Utf8.Encode(s) + [END]
  }

  /** FrameText("Hello") is 0, the five ASCII bytes, 255. */
  lemma FrameTextHello()
    ensures FrameText("Hello") == [0, 72, 101, 108, 108, 111, 255]
  {
    assert Utf8.Encode("Hello") == [72, 101, 108, 108, 111];
  }

  /** The position of the first x in b, if any. */
  function FirstIndex(b: seq<byte>, x: byte): (r: Option<nat>)
    ensures r.Some? ==> r.value < |b| && b[r.value] == x && x !in b[..r.value]
    ensures r.None? ==> x !in b
  {
    if b == [] then None
    else if b[0] == x then Some(0)
    else match FirstIndex(b[1..], x)
      case None => None
      case Some(i) =>
        assert b[..i + 1] == [b[0]] + b[1..][..i];
        Some(i + 1)
  }

  /** An occurrence with none before it is the first one. */
  lemma FirstIndexAt(b: seq<byte>, x: byte, i: nat)
    requires i < |b| && b[i] == x && x !in b[..i]
    ensures FirstIndex(b, x) == Some(i)
  {
    assert x in b by {
      assert b[i] == x;
    }
    var j := FirstIndex(b, x).value;
    forall k | 0 <= k < i
      ensures b[k] != x
    {
      assert b[..i][k] == b[k];
    }
    forall k | 0 <= k < j
      ensures b[k] != x
    {
      assert b[..j][k] == b[k];
    }
  }

  /** The messages found in a buffer, the violation that stopped the scan if
      any, and the bytes kept for the next receive. */
  datatype Scanned = Scanned(messages: seq<seq<byte>>, failure: Option<ProtocolError>, rest: seq<byte>)

  function PrependMessages(ms: seq<seq<byte>>, s: Scanned): (r: Scanned)
  {
    Scanned(ms + s.messages, s.failure, s.rest)
  }

  /** Takes complete frames off the front of buf: each must start with 0x00,
      and its text runs to the first 0xFF; an unterminated frame is kept. */
  function Scan(buf: seq<byte>): (s: Scanned)
    decreases |buf|
  {
    if buf == [] then Scanned([], None, [])
    else if buf[0] != START then Scanned([], Some(InvalidFrameStart), buf)
    else match FirstIndex(buf, END)
      case None => Scanned([], None, buf)
      case Some(e) => PrependMessages([buf[1..e]], Scan(buf[e + 1..]))
  }

  /** A framed text, with anything after it, yields the text's bytes first. */
  lemma ScanFrameText(s: string, rest: seq<byte>)
    ensures Scan(FrameText(s) + rest) == PrependMessages([Utf8.Encode(s)], Scan(rest))
  {
    var p := Utf8.Encode(s);
    var buf := FrameText(s) + rest;
    Utf8.EncodeNoFF(s);
    assert buf[..|p| + 1] == [START] + p;
    FirstIndexAt(buf, END, |p| + 1);
    assert buf[1..|p| + 1] == p;
    assert buf[|p| + 2..] == rest;
  }

  /** Every text's frames, one after another. */
  function FrameAll(ss: seq<string>): (bytes: seq<byte>)
  {
    if ss == [] then [] else FrameText(ss[0]) + FrameAll(ss[1..])
  }

  /** Receiving the frames of any texts yields exactly those texts' bytes, in
      order, with nothing left over. */
  lemma {:induction false} ScanFrameAll(ss: seq<string>)
    ensures Scan(FrameAll(ss)) == Scanned(Utf8.EncodeEach(ss), None, [])
  {
    if ss != [] {
      ScanFrameText(ss[0], FrameAll(ss[1..]));
      ScanFrameAll(ss[1..]);
    }
  }

  /** One complete frame delivers its text once and leaves nothing buffered. */
  lemma CompleteFrameDelivers(s: string)
    ensures Scan(FrameText(s)) == Scanned([Utf8.Encode(s)], None, [])
  {
    ScanFrameText(s, []);
    assert FrameText(s) + [] == FrameText(s);
  }

  /** A frame missing its end byte delivers nothing and stays buffered. */
  lemma IncompleteFrameWaits(s: string)
    ensures Scan([START] + Utf8.Encode(s)) == Scanned([], None, [START] + Utf8.Encode(s))
  {
    Utf8.EncodeNoFF(s);
  }

  /** A buffer that does not start with 0x00 is a violation, and nothing of it is consumed. */
  lemma InvalidStartFails(buf: seq<byte>)
    requires buf != [] && buf[0] != START
    ensures Scan(buf) == Scanned([], Some(InvalidFrameStart), buf)
  {
  }

  /** The handler's test: a lone 87 is refused. */
  lemma InvalidStartExample()
    ensures Scan([87]).failure == Some(InvalidFrameStart)
  {
  }

  /** A terminated frame at the front of a is found in the same place in a + b. */
  lemma FrontFrameStable(a: seq<byte>, b: seq<byte>, e: nat)
    requires a != [] && a[0] == START && FirstIndex(a, END) == Some(e)
    ensures FirstIndex(a + b, END) == Some(e)
    ensures (a + b)[1..e] == a[1..e] && (a + b)[e + 1..] == a[e + 1..] + b
  {
    assert (a + b)[..e] == a[..e];
    FirstIndexAt(a + b, END, e);
  }

  lemma PrependMessagesAssoc(m: seq<seq<byte>>, n: seq<seq<byte>>, t: Scanned)
    ensures PrependMessages(m, PrependMessages(n, t)) == PrependMessages(m + n, t)
  {
    assert m + (n + t.messages) == (m + n) + t.messages;
  }

  /** Receiving a and then b is receiving a + b: chunk boundaries do not matter. */
  lemma {:induction false} ScanAppend(a: seq<byte>, b: seq<byte>)
    ensures var s := Scan(a);
      Scan(a + b) ==
        if s.failure.None? then PrependMessages(s.messages, Scan(s.rest + b))
        else Scanned(s.messages, s.failure, s.rest + b)
    decreases |a|
  {
    if a == [] {
      assert a + b == b;
      assert [] + Scan(b).messages == Scan(b).messages;
    } else if a[0] != START {
    } else if FirstIndex(a, END).None? {
      assert [] + Scan(a + b).messages == Scan(a + b).messages;
    } else {
      var e := FirstIndex(a, END).value;
      FrontFrameStable(a, b, e);
      ScanAppend(a[e + 1..], b);
      var s' := Scan(a[e + 1..]);
      if s'.failure.None? {
        PrependMessagesAssoc([a[1..e]], s'.messages, Scan(s'.rest + b));
      }
    }
  }

  lemma JoinParts(p1: seq<byte>, p2: seq<byte>)
    ensures [START] + p1 + (p2 + [END]) == [START] + (p1 + p2) + [END]
  {
  }

  /** A text split across two receives, the end byte coming with the second
      part, is delivered once, whole, when the second part arrives. */
  lemma SplitFrameDelivers(part1: string, part2: string)
    ensures var first := [START] + Utf8.Encode(part1);
      && Scan(first) == Scanned([], None, first)
      && Scan(Scan(first).rest + (Utf8.Encode(part2) + [END])) == Scanned([Utf8.Encode(part1 + part2)], None, [])
  {
    var p1, p2 := Utf8.Encode(part1), Utf8.Encode(part2);
    IncompleteFrameWaits(part1);
    Utf8.EncodeAppend(part1, part2);
    JoinParts(p1, p2);
    CompleteFrameDelivers(part1 + part2);
  }

  /** The handler's split test as written: the whole frame in the first
      receive and an empty second receive, which delivers nothing more. */
  lemma EmptyChunkAfterFrame(s: string)
    ensures var first := Scan(FrameText(s));
      && first == Scanned([Utf8.Encode(s)], None, [])
      && Scan(first.rest + []) == Scanned([], None, [])
  {
    CompleteFrameDelivers(s);
  }

  /** What stays buffered is a suffix of the input and, when nothing went
      wrong, empty or an unterminated frame. */
  lemma {:induction false} ScanRest(buf: seq<byte>)
    ensures var s := Scan(buf);
      && |s.rest| <= |buf| && s.rest == buf[|buf| - |s.rest|..]
      && (s.failure.None? ==> s.rest == [] || (s.rest[0] == START && END !in s.rest))
    decreases |buf|
  {
    if buf != [] && buf[0] == START && FirstIndex(buf, END).Some? {
      var e := FirstIndex(buf, END).value;
      var t := buf[e + 1..];
      ScanRest(t);
      var r := Scan(t).rest;
      assert Scan(buf).rest == r && Scan(buf).failure == Scan(t).failure;
      assert t[|t| - |r|..] == buf[|buf| - |r|..];
    }
  }

  /** No delivered message holds an end byte. */
  lemma {:induction false} ScanMessagesNoEnd(buf: seq<byte>)
    ensures forall i :: 0 <= i < |Scan(buf).messages| ==> END !in Scan(buf).messages[i]
    decreases |buf|
  {
    if buf != [] && buf[0] == START && FirstIndex(buf, END).Some? {
      var e := FirstIndex(buf, END).value;
      var t := buf[e + 1..];
      ScanMessagesNoEnd(t);
      assert Scan(buf).messages == [buf[1..e]] + Scan(t).messages;
      assert END !in buf[1..e] by {
        assert buf[1..e] == buf[..e][1..];
      }
    }
  }

  /** Indexing loop for the first x in b. */
  method IndexOf(b: seq<byte>, x: byte) returns (r: Option<nat>)
    ensures r == FirstIndex(b, x)
  {
    var i := 0;
    while i < |b|
      invariant 0 <= i <= |b|
      invariant x !in b[..i]
    {
      if b[i] == x {
        FirstIndexAt(b, x, i);
        return Some(i);
      }
      assert b[..i + 1] == b[..i] + [b[i]];
      i := i + 1;
    }
    assert b[..i] == b;
    r := None;
  }

  /** The per-connection receiver: the bytes of an unterminated frame, kept
      from one Receive call to the next. */
  class Draft76Receiver {
    var buffer: seq<byte>

    constructor ()
      ensures buffer == []
    {
      buffer := [];
    }

    /** Recieve: appends the chunk and delivers every complete frame in order;
        stops at a frame that does not start with 0x00. */
    method Receive(chunk: seq<byte>) returns (messages: seq<seq<byte>>, failure: Option<ProtocolError>)
      modifies this
      ensures Scan(old(buffer) + chunk) == Scanned(messages, failure, buffer)
    {
      buffer := buffer + chunk;
      messages := [];
      failure := None;
      ghost var goal := Scan(buffer);
      while buffer != []
        invariant goal == PrependMessages(messages, Scan(buffer))
        invariant failure.None?
        decreases |buffer|
      {
        if buffer[0] != START {
          failure := Some(InvalidFrameStart);
          break;
        }
        var e := IndexOf(buffer, END);
        if e.None? {
          break;
        }
        var m := buffer[1..e.value];
        assert messages + ([m] + Scan(buffer[e.value + 1..]).messages)
            == (messages + [m]) + Scan(buffer[e.value + 1..]).messages;
        messages := messages + [m];
        buffer := buffer[e.value + 1..];
      }
      assert messages + [] == messages;
    }
  }

  // ---------------------------------------------------------------------
  // Handshake response
  // ---------------------------------------------------------------------

  const ORIGIN_HEADER := "Origin"
  const HOST_HEADER := "Host"
  const PROTOCOL_HEADER := "Sec-WebSocket-Protocol"
  const KEY1 := "Sec-WebSocket-Key1"
  const KEY2 := "Sec-WebSocket-Key2"

  /** The response header lines: status, Upgrade, Connection, the origin, the
      location built from scheme, host and path, and the subprotocol line only
      when the request names one. */
  function ResponseLines(request: HttpRequest): (lines: seq<string>)
    ensures |lines| == if Header(request, PROTOCOL_HEADER).Some? then 6 else 5
    ensures Header(request, PROTOCOL_HEADER).Some? ==>
              lines[5] == "Sec-WebSocket-Protocol: " + Header(request, PROTOCOL_HEADER).value
  {
    var fixed := [
      "HTTP/1.1 101 WebSocket Protocol Handshake",
      "Upgrade: WebSocket",
      "Connection: Upgrade",
      "Sec-WebSocket-Origin: " + OrEmpty(Header(request, ORIGIN_HEADER)),
      "Sec-WebSocket-Location: " + request.scheme + "://" + OrEmpty(Header(request, HOST_HEADER)) + request.path];
    match Header(request, PROTOCOL_HEADER)
    case None => fixed
    case Some(p) => fixed + ["Sec-WebSocket-Protocol: " + p]
  }

  /** The challenge: the last eight bytes of the raw request. */
  function Challenge(request: HttpRequest): (c: seq<byte>)
    requires |request.bytes| >= 8
    ensures |c| == 8
  {
    request.bytes[|request.bytes| - 8..]
  }

  /** CreateHandshake: the header block as text bytes, then the 16-byte answer
      appended as raw bytes. */
  function CreateHandshake(request: HttpRequest, md5: seq<byte> -> Digest): (r: Result<seq<byte>, HandshakeError>)
    ensures r.Success? ==> |r.value| == |Utf8.Encode(HeaderBlock.Render(ResponseLines(request)))| + 16
  {
    if |request.bytes| < 8 then Failure(ShortHandshake)
    else
      match AnswerBytes(Header(request, KEY1), Header(request, KEY2), Challenge(request), md5)
      case Failure(e) => Failure(e)
      case Success(answer) => Success(Utf8.Encode(HeaderBlock.Render(ResponseLines(request))) + answer)
  }

  /** The handshake fails exactly when the request is too short for a
      challenge or a key does not yield a number, with that error. */
  lemma HandshakeFailures(request: HttpRequest, md5: seq<byte> -> Digest)
    ensures CreateHandshake(request, md5).Failure? <==>
      |request.bytes| < 8 ||
      KeyBytes(Header(request, KEY1)).Failure? || KeyBytes(Header(request, KEY2)).Failure?
    ensures |request.bytes| < 8 ==> CreateHandshake(request, md5) == Failure(ShortHandshake)
    ensures |request.bytes| >= 8 && KeyBytes(Header(request, KEY1)).Failure? ==>
      CreateHandshake(request, md5) == Failure(KeyBytes(Header(request, KEY1)).error)
  {
    if |request.bytes| >= 8 {
      AnswerFailures(Header(request, KEY1), Header(request, KEY2), Challenge(request), md5);
    }
  }

  /** The fixed parts of the response are plain header lines. */
  lemma StatusLinePlain()
    ensures HeaderBlock.PlainLine("HTTP/1.1 101 WebSocket Protocol Handshake")
  {
  }

  lemma UpgradeLinesPlain()
    ensures HeaderBlock.PlainLine("Upgrade: WebSocket")
    ensures HeaderBlock.PlainLine("Connection: Upgrade")
  {
  }

  lemma OriginPrefixPlain()
    ensures HeaderBlock.PlainLine("Sec-WebSocket-Origin: ")
  {
  }

  lemma LocationPrefixPlain()
    ensures HeaderBlock.PlainLine("Sec-WebSocket-Location: ")
    ensures '\r' !in "://"
  {
  }

  lemma ProtocolPrefixPlain()
    ensures HeaderBlock.PlainLine("Sec-WebSocket-Protocol: ")
  {
  }

  /** No header value, nor the scheme or path, contains CR. */
  predicate PlainRequest(request: HttpRequest)
  {
    && '\r' !in request.scheme && '\r' !in request.path
    && '\r' !in OrEmpty(Header(request, ORIGIN_HEADER)) && '\r' !in OrEmpty(Header(request, HOST_HEADER))
    && '\r' !in OrEmpty(Header(request, PROTOCOL_HEADER))
  }

  /** Every response line is a plain header line. */
  lemma ResponseLinesPlain(request: HttpRequest)
    requires PlainRequest(request)
    ensures forall i :: 0 <= i < |ResponseLines(request)| ==> HeaderBlock.PlainLine(ResponseLines(request)[i])
  {
    StatusLinePlain();
    UpgradeLinesPlain();
    OriginPrefixPlain();
    LocationPrefixPlain();
    ProtocolPrefixPlain();
    HeaderBlock.AppendPlain("Sec-WebSocket-Origin: ", OrEmpty(Header(request, ORIGIN_HEADER)));
    var l := "Sec-WebSocket-Location: ";
    HeaderBlock.AppendPlain(l, request.scheme);
    HeaderBlock.AppendPlain(l + request.scheme, "://");
    HeaderBlock.AppendPlain(l + request.scheme + "://", OrEmpty(Header(request, HOST_HEADER)));
    HeaderBlock.AppendPlain(l + request.scheme + "://" + OrEmpty(Header(request, HOST_HEADER)), request.path);
    HeaderBlock.AppendPlain("Sec-WebSocket-Protocol: ", OrEmpty(Header(request, PROTOCOL_HEADER)));
  }

  /** A peer reading the response finds the response lines, then a blank
      line, then exactly the sixteen answer bytes. */
  lemma HandshakeReadsBack(request: HttpRequest, md5: seq<byte> -> Digest)
    requires PlainRequest(request)
    requires CreateHandshake(request, md5).Success?
    ensures HeaderBlock.ReadBlock(CreateHandshake(request, md5).value) ==
      Some((Utf8.EncodeEach(ResponseLines(request)),
            AnswerBytes(Header(request, KEY1), Header(request, KEY2), Challenge(request), md5).value))
    ensures |HeaderBlock.ReadBlock(CreateHandshake(request, md5).value).value.1| == 16
  {
    ResponseLinesPlain(request);
    HeaderBlock.ReadRendered(ResponseLines(request),
      AnswerBytes(Header(request, KEY1), Header(request, KEY2), Challenge(request), md5).value);
  }

  /** The response lines of the draft's example request. */
  const EXAMPLE_LINES := [
    "HTTP/1.1 101 WebSocket Protocol Handshake",
    "Upgrade: WebSocket",
    "Connection: Upgrade",
    "Sec-WebSocket-Origin: " + "http://example.com",
    "Sec-WebSocket-Location: " + "ws" + "://" + "example.com" + "/demo",
    "Sec-WebSocket-Protocol: " + "sample"]

  /** The example request (keys, host, origin, subprotocol "sample", path
      /demo, challenge "^n:ds[4U") gets the example response lines, then the
      digest of the two keys' bytes and the challenge. */
  lemma ExampleHandshake(request: HttpRequest, md5: seq<byte> -> Digest)
    requires Header(request, KEY1).Some? && IsExampleKey1(Header(request, KEY1).value)
    requires Header(request, KEY2).Some? && IsExampleKey2(Header(request, KEY2).value)
    requires Header(request, HOST_HEADER) == Some("example.com")
    requires Header(request, ORIGIN_HEADER) == Some("http://example.com")
    requires Header(request, PROTOCOL_HEADER) == Some("sample")
    requires request.scheme == "ws" && request.path == "/demo"
    requires |request.bytes| >= 8 && Challenge(request) == [94, 110, 58, 100, 115, 91, 52, 85]
    ensures ResponseLines(request) == EXAMPLE_LINES
    ensures CreateHandshake(request, md5) ==
      Success(Utf8.Encode(HeaderBlock.Render(ResponseLines(request))) +
              md5([49, 110, 65, 19, 15, 126, 214, 60, 94, 110, 58, 100, 115, 91, 52, 85]))
  {
    ExampleAnswerInput(Header(request, KEY1).value, Header(request, KEY2).value, md5);
  }
}
