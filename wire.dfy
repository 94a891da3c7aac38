/** Values shared by every part of the server core: bytes, optional values,
    results, the protocol error taxonomy, big-endian integers, XOR, and the
    already-parsed HTTP request that the transport hands to the core. */
module Wire {

  /** One octet on the wire. */
  type byte = b: int | 0 <= b < 256

  /** An unsigned 16-bit value (a Close status code). */
  type uint16 = x: int | 0 <= x < 0x1_0000

  datatype Option<+T> = None | Some(value: T)

  datatype Result<+T, +E> = Success(value: T) | Failure(error: E)

  /** The per-connection protocol violations (all fatal to the connection). */
  datatype ProtocolError =
    | UnsupportedProtocol      // no handler for the requested version
    | UnmaskedFrame            // an inbound Hybi frame without the mask bit
    | UnexpectedContinuation   // a Continuation frame with no fragment in progress
    | UnexpectedDataFrame      // a new Text/Binary frame while a fragment is in progress
    | ReservedOpcode           // a Hybi frame whose opcode RFC 6455 leaves undefined
    | InvalidFrameStart        // a Draft76 frame that does not start with 0x00

  /** The request as the transport delivers it: path and scheme, headers looked up
      by exact key, and the raw bytes of everything received. */
  datatype HttpRequest = HttpRequest(
    path: string,
    scheme: string,
    headers: map<string, string>,
    bytes: seq<byte>)

  /** Header lookup that yields None for a missing header (the C# indexer's null). */
  function Header(request: HttpRequest, name: string): (v: Option<string>)
    ensures v.Some? <==> name in request.headers
    ensures v.Some? ==> v.value == request.headers[name]
  {
    if name in request.headers then Some(request.headers[name]) else None
  }

  /** How a possibly-null string is rendered by string concatenation or formatting. */
  function OrEmpty(v: Option<string>): (s: string)
  {
    match v
    case Some(s) => s
    case None => ""
  }

  function Pow256(w: nat): (p: nat)
    ensures p > 0
  {
    if w == 0 then 1 else 256 * Pow256(w - 1)
  }

  /** The low w bytes of n, most significant first. */
  function BigEndian(n: nat, w: nat): (s: seq<byte>)
    ensures |s| == w
  {
    if w == 0 then [] else BigEndian(n / 256, w - 1) + [n % 256]
  }

  /** The unsigned value of a big-endian byte string. */
  function FromBigEndian(s: seq<byte>): (n: nat)
    ensures n < Pow256(|s|)
  {
    if s == [] then 0
    else
      var high := FromBigEndian(s[..|s| - 1]);
      assert high * 256 <= (Pow256(|s| - 1) - 1) * 256;
      high * 256 + s[|s| - 1]
  }

  lemma DivBound(n: nat, w: nat)
    requires w > 0 && n < Pow256(w)
    ensures n / 256 < Pow256(w - 1)
  {
  }

  /** Writing a value that fits and reading it back gives the value. */
  lemma {:induction false} BigEndianRoundTrip(n: nat, w: nat)
    requires n < Pow256(w)
    ensures FromBigEndian(BigEndian(n, w)) == n
  {
    if w > 0 {
      var s := BigEndian(n, w);
      assert s[..|s| - 1] == BigEndian(n / 256, w - 1);
      DivBound(n, w);
      BigEndianRoundTrip(n / 256, w - 1);
    }
  }

  /** Reading a byte string and writing it back at the same width gives the string. */
  lemma {:induction false} FromBigEndianRoundTrip(s: seq<byte>)
    ensures BigEndian(FromBigEndian(s), |s|) == s
  {
    if s != [] {
      var p, l := s[..|s| - 1], s[|s| - 1];
      var n := FromBigEndian(s);
      assert n == FromBigEndian(p) * 256 + l;
      assert n / 256 == FromBigEndian(p) && n % 256 == l;
      FromBigEndianRoundTrip(p);
      assert s == p + [l];
    }
  }

  function Pow2(n: nat): (p: nat)
    ensures p > 0
  {
    if n == 0 then 1 else 2 * Pow2(n - 1)
  }

  /** Bitwise exclusive or of the low n bits of a and b, least significant bit first. */
  function XorBits(a: nat, b: nat, n: nat): (r: nat)
    ensures r < Pow2(n)
  {
    if n == 0 then 0
    else (if a % 2 == b % 2 then 0 else 1) + 2 * XorBits(a / 2, b / 2, n - 1)
  }

  /** Bitwise exclusive or of two octets. */
  function Xor(a: byte, b: byte): (x: byte)
  {
    XorBits(a, b, 8)
  }

  lemma {:induction false} XorBitsCancel(a: nat, k: nat, n: nat)
    requires a < Pow2(n)
    ensures XorBits(XorBits(a, k, n), k, n) == a
  {
    if n > 0 {
      var c := XorBits(a, k, n);
      var low := XorBits(a / 2, k / 2, n - 1);
      assert c == (if a % 2 == k % 2 then 0 else 1) + 2 * low;
      assert c % 2 == (if a % 2 == k % 2 then 0 else 1) && c / 2 == low;
      XorBitsCancel(a / 2, k / 2, n - 1);
    }
  }

  /** Masking twice with the same key byte restores the byte. */
  lemma XorInvolutive(a: byte, k: byte)
    ensures Xor(Xor(a, k), k) == a
  {
    assert Pow2(8) == 256;
    XorBitsCancel(a, k, 8);
  }
}
