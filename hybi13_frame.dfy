/** One RFC 6455 frame (section 5.2 of RFC 6455): the header bits, the three
    length classes, the optional 4-byte mask key, and the XOR masking of
    section 5.3. Encoding is what the Hybi13 handler's FrameText and
    FrameClose produce; parsing is what its receive path does with the bytes
    buffered so far. */
module Hybi13Frame {
  import opened Wire
  import Utf8

  /** The low four bits of the first header byte. */
  type Opcode = x: int | 0 <= x < 16

  const CONTINUATION: Opcode := 0x0
  const TEXT: Opcode := 0x1
  const BINARY: Opcode := 0x2
  const CLOSE: Opcode := 0x8
  const PING: Opcode := 0x9
  const PONG: Opcode := 0xA

  const TWO64: int := 0x1_0000_0000_0000_0000

  type MaskKey = k: seq<byte> | |k| == 4 witness [0, 0, 0, 0]

  /** A frame with its payload in the clear; mask is the key when the mask bit is set. */
  datatype Frame = Frame(fin: bool, opcode: Opcode, mask: Option<MaskKey>, payload: seq<byte>)

  /** XOR of every payload byte with the key byte at its position modulo four. */
  function Mask(payload: seq<byte>, key: MaskKey): (r: seq<byte>)
    ensures |r| == |payload|
  {
    seq(|payload|, i requires 0 <= i < |payload| => Xor(payload[i], key[i % 4]))
  }

  /** Masking with the same key twice gives the payload back. */
  lemma MaskInvolutive(payload: seq<byte>, key: MaskKey)
    ensures Mask(Mask(payload, key), key) == payload
  {
    forall i | 0 <= i < |payload|
      ensures Mask(Mask(payload, key), key)[i] == payload[i]
    {
      XorInvolutive(payload[i], key[i % 4]);
    }
  }

  /** The number of length bytes after byte 1: none, two or eight. */
  function ExtendedWidth(n: nat): (w: nat)
  {
    if n <= 125 then 0 else if n <= 0xFFFF then 2 else 8
  }

  /** Byte 1 and the extended length: the mask bit, then the smallest length
      class that holds n; the 64-bit class keeps the low 64 bits of n. */
  function LengthField(n: nat, masked: bool): (s: seq<byte>)
    ensures |s| == 1 + ExtendedWidth(n)
    ensures (s[0] >= 128) == masked
  {
    var m := if masked then 128 else 0;
    if n <= 125 then [m + n]
    else if n <= 0xFFFF then [m + 126] + BigEndian(n, 2)
    else [m + 127] + BigEndian(n, 8)
  }

  /** FIN in bit 7 of byte 0, the opcode in its low bits (RSV bits zero). */
  function FirstByte(fin: bool, opcode: Opcode): (b: byte)
    ensures (b >= 128) == fin && b % 16 == opcode
  {
    (if fin then 128 else 0) + opcode
  }

  /** The wire bytes of a frame: header, mask key if any, payload masked with it. */
  function Encode(f: Frame): (bytes: seq<byte>)
  {
    match f.mask
    case None => [FirstByte(f.fin, f.opcode)] + LengthField(|f.payload|, false) + f.payload
    case Some(key) => [FirstByte(f.fin, f.opcode)] + LengthField(|f.payload|, true) + key + Mask(f.payload, key)
  }

  /** The header size of an encoded frame. */
  function HeaderSize(f: Frame): (size: nat)
  {
    2 + ExtendedWidth(|f.payload|) + (if f.mask.Some? then 4 else 0)
  }

  /** The layout of an encoded frame: its size, its two first bytes, where
      the mask key sits, and that the payload ends it, masked when a key is set. */
  lemma EncodeLayout(f: Frame)
    ensures |Encode(f)| == HeaderSize(f) + |f.payload|
    ensures Encode(f)[0] == FirstByte(f.fin, f.opcode)
    ensures Encode(f)[1] == LengthField(|f.payload|, f.mask.Some?)[0]
    ensures Encode(f)[HeaderSize(f)..] == if f.mask.Some? then Mask(f.payload, f.mask.value) else f.payload
    ensures f.mask.Some? ==> Encode(f)[HeaderSize(f) - 4..HeaderSize(f)] == f.mask.value
  {
  }

  /** The outcome of looking at the bytes buffered so far. */
  datatype Parse =
    | NeedMore                          // not yet a whole frame
    | Unmasked                          // the mask bit of byte 1 is clear
    | Parsed(frame: Frame, used: nat)   // a whole frame taking the first used bytes

  /** Reads the frame at the front of buf: FIN and opcode from byte 0 (the
      RSV bits are not looked at), the mask bit and length class from byte 1,
      the extended length, the mask key, and the unmasked payload. */
  function ParseFrame(buf: seq<byte>): (p: Parse)
    ensures p.Parsed? ==> 0 < p.used <= |buf|
  {
    if |buf| < 2 then NeedMore
    else if buf[1] < 128 then Unmasked
    else
      var code := buf[1] - 128;
      var width := if code <= 125 then 0 else if code == 126 then 2 else 8;
      var header := 2 + width + 4;
      if |buf| < header then NeedMore
      else
        var n := if code <= 125 then code else FromBigEndian(buf[2..2 + width]);
        if |buf| < header + n then NeedMore
        else
          var key: MaskKey := buf[2 + width..header];
          Parsed(Frame(buf[0] >= 128, buf[0] % 16, Some(key), Mask(buf[header..header + n], key)), header + n)
  }

  /** A masked frame comes back exactly, whatever bytes follow it. */
  lemma ParseEncoded(f: Frame, rest: seq<byte>)
    requires f.mask.Some? && |f.payload| < TWO64
    ensures ParseFrame(Encode(f) + rest) == Parsed(f, |Encode(f)|)
  {
    var n := |f.payload|;
    var key := f.mask.value;
    var buf := Encode(f) + rest;
    var width := ExtendedWidth(n);
    var header := 2 + width + 4;
    EncodeLayout(f);
    assert buf[..|Encode(f)|] == Encode(f);
    assert buf[2 + width..header] == key;
    if width > 0 {
      assert buf[2..2 + width] == BigEndian(n, width);
      assert Pow256(2) == 0x1_0000;
      assert Pow256(8) == TWO64;
      BigEndianRoundTrip(n, width);
    }
    assert buf[header..header + n] == Mask(f.payload, key);
    MaskInvolutive(f.payload, key);
  }

  /** An unmasked frame (every frame the server itself sends) is refused inbound. */
  lemma ParseUnmaskedEncoded(f: Frame, rest: seq<byte>)
    requires f.mask.None?
    ensures ParseFrame(Encode(f) + rest) == Unmasked
  {
    EncodeLayout(f);
  }

  /** Once the front of the buffer is decided, more bytes do not change it. */
  lemma ParseStable(buf: seq<byte>, more: seq<byte>)
    requires !ParseFrame(buf).NeedMore?
    ensures ParseFrame(buf + more) == ParseFrame(buf)
  {
    var all := buf + more;
    if all[1] >= 128 {
      var code := buf[1] - 128;
      var width := if code <= 125 then 0 else if code == 126 then 2 else 8;
      var header := 2 + width + 4;
      assert all[2..2 + width] == buf[2..2 + width];
      assert all[2 + width..header] == buf[2 + width..header];
      var n := if code <= 125 then code else FromBigEndian(buf[2..2 + width]);
      assert all[header..header + n] == buf[header..header + n];
    }
  }

  /** Every strict prefix of a masked frame is still incomplete. */
  lemma PrefixNeedsMore(f: Frame, k: nat)
    requires f.mask.Some? && |f.payload| < TWO64
    requires k < |Encode(f)|
    ensures ParseFrame(Encode(f)[..k]) == NeedMore
  {
    var e := Encode(f);
    if k >= 2 {
      var p := e[..k];
      assert p + e[k..] == e;
      ParseEncoded(f, []);
      assert e + [] == e;
      if ParseFrame(p) != NeedMore {
        ParseStable(p, e[k..]);
        assert false;
      }
    }
  }

  /** The server's text frame: FIN set, opcode Text, no mask, the UTF-8 text. */
  function FrameText(s: string): (bytes: seq<byte>)
  {
    Encode(Frame(true, TEXT, None, Utf8.Encode(s)))
  }

  /** The server's close frame: FIN set, opcode Close, the code big-endian. */
  function FrameClose(code: uint16): (bytes: seq<byte>)
  {
    Encode(Frame(true, CLOSE, None, BigEndian(code, 2)))
  }

  /** A server text frame starts 0x81, has the mask bit clear, uses the
      smallest length class and carries the UTF-8 text verbatim at its end. */
  lemma FrameTextLayout(s: string)
    ensures var p := Utf8.Encode(s); var b := FrameText(s);
      && |b| == 2 + ExtendedWidth(|p|) + |p|
      && b[0] == 0x81 && b[1] < 128
      && (|p| <= 125 ==> b[1] == |p|)
      && (125 < |p| <= 0xFFFF ==> b[1] == 126 && b[2..4] == BigEndian(|p|, 2))
      && (0xFFFF < |p| ==> b[1] == 127 && b[2..10] == BigEndian(|p|, 8))
      && b[|b| - |p|..] == p
  {
    var f := Frame(true, TEXT, None, Utf8.Encode(s));
    EncodeLayout(f);
  }

  /** FrameText("Hello") is 129, 5, then the five ASCII bytes. */
  lemma FrameTextHello()
    ensures FrameText("Hello") == [129, 5, 72, 101, 108, 108, 111]
  {
    assert Utf8.Encode("Hello") == [72, 101, 108, 108, 111];
  }

  /** FrameClose(1002) is 136, 2, then 1002 big-endian. */
  lemma FrameCloseExample()
    ensures FrameClose(1002) == [136, 2, 3, 234]
  {
  }

  /** The three length classes at the sizes the handler's tests use. */
  lemma LengthClassExamples()
    ensures LengthField(14, true) == [142]
    ensures LengthField(8000, true) == [254, 31, 64]
    ensures LengthField(131070, true) == [255, 0, 0, 0, 0, 0, 1, 255, 254]
  {
  }
}
