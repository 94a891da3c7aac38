/** An HTTP header block: lines each ended by CR LF, the block ended by an
    empty line. Rendering is what the handshake responses do; reading a block
    back is the partner that shows what a peer sees on the wire. */
module HeaderBlock {
  import opened Wire
  import Utf8

  const CR: byte := 13
  const LF: byte := 10

  /** Every line followed by CR LF, then one more CR LF. */
  function Render(lines: seq<string>): (text: string)
  {
    if lines == [] then "\r\n" else lines[0] + "\r\n" + Render(lines[1..])
  }

  /** A line that may appear in a header block: not empty and without CR. */
  predicate PlainLine(line: string)
  {
    line != [] && '\r' !in line
  }

  /** Splits off the bytes before the first CR LF, and what follows it. */
  function ReadLine(b: seq<byte>): (r: Option<(seq<byte>, seq<byte>)>)
    ensures r.Some? ==> |r.value.1| < |b|
  {
    if |b| < 2 then None
    else if b[0] == CR && b[1] == LF then Some(([], b[2..]))
    else match ReadLine(b[1..])
      case None => None
      case Some(split) => Some(([b[0]] + split.0, split.1))
  }

  /** Reads lines up to and including the empty line; yields the lines and the bytes after. */
  function ReadBlock(b: seq<byte>): (r: Option<(seq<seq<byte>>, seq<byte>)>)
    decreases |b|
  {
    match ReadLine(b)
    case None => None
    case Some(split) =>
      if split.0 == [] then Some(([], split.1))
      else match ReadBlock(split.1)
        case None => None
        case Some(block) => Some(([split.0] + block.0, block.1))
  }

  lemma {:induction false} ReadLineSplits(x: seq<byte>, t: seq<byte>)
    requires CR !in x
    ensures ReadLine(x + [CR, LF] + t) == Some((x, t))
  {
    if x != [] {
      assert (x + [CR, LF] + t)[1..] == x[1..] + [CR, LF] + t;
      ReadLineSplits(x[1..], t);
      assert [x[0]] + x[1..] == x;
    } else {
      assert x + [CR, LF] + t == [CR, LF] + t;
    }
  }

  /** The bytes of a rendered block: the first line's bytes, CR LF, then the rest. */
  lemma EncodeRenderStep(lines: seq<string>)
    requires lines != []
    ensures Utf8.Encode(Render(lines)) == Utf8.Encode(lines[0]) + [CR, LF] + Utf8.Encode(Render(lines[1..]))
  {
    var l, rest := lines[0], lines[1..];
    assert Render(lines) == l + ("\r\n" + Render(rest));
    Utf8.EncodeAppend(l, "\r\n" + Render(rest));
    Utf8.EncodeAppend("\r\n", Render(rest));
    assert Utf8.Encode("\r\n") == [CR, LF];
  }

  /** Reading back a rendered block with bytes after it yields exactly its
      lines, and the bytes after the empty line untouched. */
  lemma {:induction false} ReadRendered(lines: seq<string>, tail: seq<byte>)
    requires forall i :: 0 <= i < |lines| ==> PlainLine(lines[i])
    ensures ReadBlock(Utf8.Encode(Render(lines)) + tail) == Some((Utf8.EncodeEach(lines), tail))
  {
    if lines == [] {
      assert Utf8.Encode("\r\n") == [CR, LF];
      ReadLineSplits([], tail);
      assert [] + [CR, LF] + tail == [CR, LF] + tail;
    } else {
      var x := Utf8.Encode(lines[0]);
      var more := Utf8.Encode(Render(lines[1..])) + tail;
      EncodeRenderStep(lines);
      assert Utf8.Encode(Render(lines)) + tail == x + [CR, LF] + more;
      Utf8.EncodeLowByte(lines[0], '\r');
      ReadLineSplits(x, more);
      assert x != [];
      ReadRendered(lines[1..], tail);
    }
  }

  /** A block of four plain lines reads back as those four lines and nothing after. */
  lemma ReadFour(a: string, b: string, c: string, d: string)
    requires PlainLine(a) && PlainLine(b) && PlainLine(c) && PlainLine(d)
    ensures ReadBlock(Utf8.Encode(Render([a, b, c, d]))) == Some((Utf8.EncodeEach([a, b, c, d]), []))
  {
    var lines := [a, b, c, d];
    ReadRendered(lines, []);
    assert Utf8.Encode(Render(lines)) + [] == Utf8.Encode(Render(lines));
  }

  /** Appending CR-free text to a plain line keeps it plain. */
  lemma AppendPlain(line: string, more: string)
    requires PlainLine(line) && '\r' !in more
    ensures PlainLine(line + more)
  {
    var all := line + more;
    forall i | 0 <= i < |all|
      ensures all[i] != '\r'
    {
      if i >= |line| {
        assert all[i] == more[i - |line|];
      }
    }
  }
}
