/** UTF-8 encoding of text (Encoding.UTF8.GetBytes), as used for outbound
    payloads and the handshake response text. */
module Utf8 {
  import opened Wire

  /** The UTF-8 bytes of one Unicode scalar value. */
  function EncodeChar(c: char): (s: seq<byte>)
    ensures 1 <= |s| <= 4
    ensures (c as int < 0x80) <==> |s| == 1
    ensures c as int < 0x80 ==> s == [c as int]
    ensures c as int >= 0x80 ==> forall i :: 0 <= i < |s| ==> 0x80 <= s[i] <= 0xF4
  {
    var n := c as int;
    if n < 0x80 then [n]
    else if n < 0x800 then [0xC0 + n / 0x40, 0x80 + n % 0x40]
    else if n < 0x1_0000 then [0xE0 + n / 0x1000, 0x80 + (n / 0x40) % 0x40, 0x80 + n % 0x40]
    else [0xF0 + n / 0x4_0000, 0x80 + (n / 0x1000) % 0x40, 0x80 + (n / 0x40) % 0x40, 0x80 + n % 0x40]
  }

  /** The UTF-8 bytes of a string, character by character. */
  function Encode(s: string): (b: seq<byte>)
    ensures |b| >= |s|
  {
    if s == [] then [] else EncodeChar(s[0]) + Encode(s[1..])
  }

  /** The UTF-8 bytes of each string of a list, in order. */
  function EncodeEach(ss: seq<string>): (bs: seq<seq<byte>>)
    ensures |bs| == |ss|
    ensures forall i :: 0 <= i < |ss| ==> bs[i] == Encode(ss[i])
  {
    if ss == [] then [] else [Encode(ss[0])] + EncodeEach(ss[1..])
  }

  /** A string is ASCII when every character is below 0x80. */
  predicate IsAscii(s: string)
  {
    forall i :: 0 <= i < |s| ==> s[i] as int < 0x80
  }

  /** Encoding distributes over concatenation. */
  lemma {:induction false} EncodeAppend(a: string, b: string)
    ensures Encode(a + b) == Encode(a) + Encode(b)
  {
    if a != [] {
      assert (a + b)[0] == a[0];
      assert (a + b)[1..] == a[1..] + b;
      EncodeAppend(a[1..], b);
    } else {
      assert a + b == b;
    }
  }

  /** An ASCII string encodes to one byte per character, equal to its code. */
  lemma {:induction false} EncodeAscii(s: string)
    requires IsAscii(s)
    ensures |Encode(s)| == |s|
    ensures forall i :: 0 <= i < |s| ==> Encode(s)[i] == s[i] as int
  {
    if s != [] {
      EncodeAscii(s[1..]);
    }
  }

  /** A byte below 0x80 occurs in the encoding only as the code of that very character. */
  lemma {:induction false} EncodeLowByte(s: string, c: char)
    requires c as int < 0x80
    requires c !in s
    ensures (c as int) !in Encode(s)
  {
    if s != [] {
      EncodeLowByte(s[1..], c);
      assert s[0] != c;
    }
  }

  /** UTF-8 never contains the byte 0xFF (the Draft76 frame terminator). */
  lemma {:induction false} EncodeNoFF(s: string)
    ensures 0xFF !in Encode(s)
  {
    if s != [] {
      EncodeNoFF(s[1..]);
    }
  }
}
