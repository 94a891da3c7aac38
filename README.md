# Fleck WebSocket server core, modelled in Dafny

This project models the protocol core of the Fleck C# WebSocket server and proves properties about that model. The core is:

- **Handler selection.** `HandlerFactory.GetVersion` reads the protocol version from the request headers. `BuildHandler` then picks the Draft76 or the Hybi13 handler for that version, or refuses the request.
- **The draft-76 opening handshake** (`HandshakeHandler`). It covers:
  - `ParseKey`: count the spaces, keep the digits, divide, truncate to Int32, and write four bytes most significant first;
  - `CalculateAnswerBytes`: build a 16-byte buffer and digest it;
  - the challenge split and the header-name dispatch of `ParseClientHandshake`;
  - `GenerateResponseHandshake`;
  - the byte concatenation of `BeginSendServerHandshake`.
- **The Hybi13 handler.** It covers:
  - the accept key and the 101 response of section 4.2.2 of RFC 6455;
  - frame encoding as used by `FrameText` and `FrameClose` (section 5.2 of RFC 6455), with its three length classes and the mask of section 5.3;
  - the receive path: a per-connection buffer, unmasking, and reassembly of fragmented messages (section 5.4 of RFC 6455), with Close frames reported.
- **The Draft76 handler.** It covers:
  - delimiter framing: 0x00, the UTF-8 text, then 0xFF;
  - a receive buffer that is kept across calls;
  - the 101 WebSocket Protocol Handshake response, with the 16 answer bytes appended after the blank line.

Source files:

| Dafny file | Contents |
|---|---|
| `wire.dfy` | Bytes, `Option`/`Result`, the protocol errors, the request record, big-endian integers, XOR |
| `utf8.dfy` | UTF-8 encoding of text |
| `header_block.dfy` | Rendering of CR LF header blocks, and a reader that parses them back |
| `handler_factory.dfy` | `GetVersion`, `BuildHandler` |
| `handshake_handler.dfy` | The draft-76 handshake computations |
| `hybi13_frame.dfy` | RFC 6455 frame encoding and parsing |
| `hybi13_handler.dfy` | The Hybi13 handshake, the reassembly state machine, and `Hybi13Receiver` |
| `draft76_handler.dfy` | The Draft76 framing, `Draft76Receiver`, and the Draft76 handshake |

How the source is modelled:

- **Stateful receivers.** The receive paths keep state from one call to the next, so they are classes: `Hybi13Receiver` and `Draft76Receiver`. Each `Receive` method is proved against a specification function of the old state and the new chunk: `Drain` for Hybi13, `Scan` for Draft76. Lemmas about those functions state what the handler's tests promise. The most important one says that chunk boundaries do not matter (`DrainAppend`, `ScanAppend`).
- **Loops and buffers.** The loops and in-place array code of `HandshakeHandler` are methods with loop invariants. These are the `Array.Reverse`, the `Array.Copy` into the 16-byte buffer, the loop over the captured fields, and the `Array.Resize`/`Array.Copy` of the response.
- **Digests and library calls are parameters.** MD5, SHA-1, base64 and the request regular expression (together with its UTF-8 decoding) are function-typed parameters. Every property is proved for any such function. The MD5 parameter returns a `HandshakeHandler.Digest`, a sequence of exactly 16 bytes, because `MD5.ComputeHash` always returns 16 bytes.
- **Values the source leaves null** are `None`. A null header value that is formatted into response text renders as the empty string (`Wire.OrEmpty`).
- **Header lookup** in the request record uses exact keys.
- **Choices taken from RFC 6455, not from a test.** These Hybi13 outcomes are decided by RFC 6455, because no test of the handler fixes them:
  - a Text or Binary frame that arrives while a fragmented message is still being assembled fails with `UnexpectedDataFrame` (section 5.4 of RFC 6455);
  - a frame with a reserved opcode (3-7 or 11-15) fails with `ReservedOpcode` (section 5.2 of RFC 6455);
  - Ping and Pong frames pass through with no event and leave the reassembly state alone.

Two behaviours a reader might not expect:

- **Version "13" is refused.** `BuildHandler` accepts only "76", "7" and "8", so a request whose `Sec-WebSocket-Version` is "13" raises `UnsupportedProtocol` (`HandlerFactory.VersionTable`). This is the switch of `src/Fleck/HandlerFactory.cs:12-22`: it has no case for "13", even though RFC 6455 uses version 13.
- **The Draft76 split test sends the whole frame first.** Its second part is appended to the first list, so the first `Recieve` gets the complete frame and the second gets an empty chunk. The model proves the test as written (`Draft76Handler.EmptyChunkAfterFrame`). It also proves the split the test's name describes (`Draft76Handler.SplitFrameDelivers`) and the general chunk-boundary lemma (`Draft76Handler.ScanAppend`).

`Hybi13Handler.cs` and `Draft76Handler.cs` are not part of this model. Their behaviour is taken from their tests and from RFC 6455 and draft-hixie-thewebsocketprotocol-76. The rows for those handlers cite the tests that fix the behaviour.

## Model

| member | source | states |
|---|---|---|
| HandlerFactory.GetVersion | src/Fleck/HandlerFactory.cs:25-38 | The Version header's value if present; else the Draft header's value if present; else "76" if Key1 is present; else "75" |
| HandlerFactory.VersionHeaderDominates | src/Fleck/HandlerFactory.cs:28-29 | With the Version header present, adding or changing any other header does not change the version |
| HandlerFactory.Version76Exactly | src/Fleck/HandlerFactory.cs:25-38 | The version is "76" iff the deciding header holds "76", or neither Version nor Draft is present and Key1 is |
| HandlerFactory.NoVersionHeadersRefused | src/Fleck/HandlerFactory.cs:34-37 | With none of the three headers the version is "75" and the request is refused |
| HandlerFactory.BuildHandler | src/Fleck/HandlerFactory.cs:8-23 | Succeeds iff the version is "76", "7" or "8"; Draft76 iff "76"; the close callback is wired only to Hybi13; otherwise UnsupportedProtocol |
| HandlerFactory.VersionTable | src/Fleck/HandlerFactory.cs:12-22 | "7" and "8" give Hybi13, "76" gives Draft76, and "13" and "75" are refused |
| HandshakeHandler.CountSpaces | src/Fleck/HandshakeHandler.cs:170 | The number of spaces in the key, counted left to right; it is never more than the key's length |
| HandshakeHandler.KeyQuotient | src/Fleck/HandshakeHandler.cs:170-173 | `Int64.Parse` of the digits divided by the space count, failing in the source's order: no digits, Int64 overflow, then no spaces; `KeyFailures` and `KeyBytesValue` state its results |
| HandshakeHandler.CountSpacesIsMultiplicity | src/Fleck/HandshakeHandler.cs:170 | The space count is exactly the number of ' ' characters in the key |
| HandshakeHandler.IsDigit | src/Fleck/HandshakeHandler.cs:171 | The `Char.IsDigit` filter test: exactly the characters '0' to '9' |
| HandshakeHandler.Digits | src/Fleck/HandshakeHandler.cs:171 | The digit string holds only digits and is no longer than the key |
| HandshakeHandler.DigitsMultiplicity | src/Fleck/HandshakeHandler.cs:171 | Each digit occurs in the digit string as often as in the key; no other character occurs |
| HandshakeHandler.DigitsOfDigits | src/Fleck/HandshakeHandler.cs:171 | A key made only of digits is its own digit string: the filter deletes nothing from it |
| HandshakeHandler.ParseInt64 | src/Fleck/HandshakeHandler.cs:173 | Succeeds iff there is at least one digit and the value fits Int64; otherwise NoDigits or Int64Overflow |
| HandshakeHandler.Int32Cast | src/Fleck/HandshakeHandler.cs:173 | The (Int32) cast is in Int32 range and congruent to its argument modulo 2^32 |
| HandshakeHandler.KeyFailures | src/Fleck/HandshakeHandler.cs:170-173 | No digits gives NoDigits; no spaces gives NoSpaces (the division by zero); success implies spaces and digits |
| HandshakeHandler.KeyBytesOfSmallQuotient | src/Fleck/HandshakeHandler.cs:173-178 | A quotient below 2^31 is written as its four big-endian bytes, which read back to the quotient |
| HandshakeHandler.KeyBytesValue | src/Fleck/HandshakeHandler.cs:173-178 | For any quotient, including one of 2^31 or more that the Int32 cast wraps, the four bytes read back as the quotient modulo 2^32 |
| HandshakeHandler.KeyBytes | src/Fleck/HandshakeHandler.cs:168-179 | A key that succeeds yields exactly four bytes |
| HandshakeHandler.GetBytes | src/Fleck/HandshakeHandler.cs:175 | A fresh 4-byte array holding the Int32 in the platform's byte order |
| HandshakeHandler.Reverse | src/Fleck/HandshakeHandler.cs:176-177 | In-place reversal: element i becomes old element Length-1-i |
| HandshakeHandler.ParseKey | src/Fleck/HandshakeHandler.cs:168-179 | On either platform order the result equals `KeyBytes`: four bytes, most significant first, or the key's error |
| HandshakeHandler.ExampleKeysDescribed | src/Fleck.Tests/Draft76HandlerTests.cs:47-48 | The character-by-character predicates describe the two test keys |
| HandshakeHandler.ExampleKey1 | src/Fleck.Tests/Draft76HandlerTests.cs:47 | The first test key gives 4146546015 / 5 = 829309203 and the bytes 49, 110, 65, 19 |
| HandshakeHandler.ExampleKey2 | src/Fleck.Tests/Draft76HandlerTests.cs:48 | The second test key gives 1299853100 / 5 = 259970620 and the bytes 15, 126, 214, 60 |
| HandshakeHandler.CopyInto | src/Fleck/HandshakeHandler.cs:160-162 | `Array.Copy` of the whole source at an offset; the bytes before and after are unchanged |
| HandshakeHandler.CalculateAnswerBytes | src/Fleck/HandshakeHandler.cs:154-166 | Fills the 16-byte buffer and digests it; the result equals `AnswerBytes` |
| HandshakeHandler.AnswerLayout | src/Fleck/HandshakeHandler.cs:159-165 | The digest is taken over exactly 16 bytes: key1's bytes at 0..3, key2's at 4..7, the challenge at 8..15 |
| HandshakeHandler.AnswerBytes | src/Fleck/HandshakeHandler.cs:154-166 | A successful answer is exactly 16 bytes long: the digest of key1's four bytes, key2's four bytes and the challenge, or the first failing key's error; `AnswerLayout` and `AnswerFailures` state it |
| HandshakeHandler.AnswerFailures | src/Fleck/HandshakeHandler.cs:156-157 | The answer fails iff one of the keys fails, with key1's error first |
| HandshakeHandler.ExampleAnswerInput | src/Fleck.Tests/Draft76HandlerTests.cs:47-50 | For the test keys and challenge, the digested buffer is 49,110,65,19, 15,126,214,60, then "^n:ds[4U" |
| HandshakeHandler.Start | src/Fleck/HandshakeHandler.cs:62-75 | The new `ClientHandshake`: the resource path and challenge set, every header field and the additional-fields dictionary null |
| HandshakeHandler.ParseClientHandshake | src/Fleck/HandshakeHandler.cs:60-110 | Fails iff input is under 8 bytes (ShortHandshake); otherwise the last 8 bytes are the challenge and the captures from the rest are dispatched in order |
| HandshakeHandler.Classify | src/Fleck/HandshakeHandler.cs:82-106 | The slot a header name selects: one of six names after lower-casing, otherwise the additional fields; `ClassifyLower` shows it ignores case |
| HandshakeHandler.ApplyField | src/Fleck/HandshakeHandler.cs:82-106 | One pass of the loop body; `ApplyFieldSlot` and `ApplyFieldExtra` state exactly what it changes |
| HandshakeHandler.ApplyFields | src/Fleck/HandshakeHandler.cs:77-108 | The loop over the captured fields, in capture order; `LastOccurrenceWins`, `AbsentNameKeeps` and the AdditionalFields lemmas state its result |
| HandshakeHandler.ApplyFieldsKeeps | src/Fleck/HandshakeHandler.cs:75-108 | Dispatching fields never changes the resource path or the challenge |
| HandshakeHandler.ApplyFieldSlot | src/Fleck/HandshakeHandler.cs:82-101 | One field sets exactly the slot its name selects and leaves every other slot alone |
| HandshakeHandler.LastOccurrenceWins | src/Fleck/HandshakeHandler.cs:77-108 | A known field holds the value of its last occurrence |
| HandshakeHandler.AbsentNameKeeps | src/Fleck/HandshakeHandler.cs:77-108 | A known field that never occurs keeps its initial (null) value |
| HandshakeHandler.ApplyFieldExtra | src/Fleck/HandshakeHandler.cs:102-106 | An unknown name creates the dictionary if it is null and stores the value under the name as spelled |
| HandshakeHandler.AdditionalFieldsNull | src/Fleck/HandshakeHandler.cs:103-104 | The dictionary stays null iff no unknown name occurs |
| HandshakeHandler.AdditionalFieldsKeys | src/Fleck/HandshakeHandler.cs:105 | Its keys are exactly the unknown names that occur, in their original spelling |
| HandshakeHandler.AdditionalFieldsLastValue | src/Fleck/HandshakeHandler.cs:105 | An unknown name holds the value of its last occurrence |
| HandshakeHandler.LowerIdempotent | src/Fleck/HandshakeHandler.cs:82 | Lower-casing is idempotent |
| HandshakeHandler.Lower | src/Fleck/HandshakeHandler.cs:82 | `name.ToLower()` as an ASCII fold: the same length, each character lower-cased on its own |
| HandshakeHandler.ClassifyLower | src/Fleck/HandshakeHandler.cs:82 | A name and its lower-case form select the same slot, so matching ignores case |
| HandshakeHandler.ClassifyIgnoresCase | src/Fleck/HandshakeHandler.cs:82-97 | "HOST" and "Host" both select the Host slot |
| HandshakeHandler.GenerateResponseHandshake | src/Fleck/HandshakeHandler.cs:112-128 | Location is "ws://" + Host + ResourcePath; Origin and SubProtocol are copied; the answer is `AnswerBytes`, or its error |
| HandshakeHandler.Resize | src/Fleck/HandshakeHandler.cs:136 | `Array.Resize`: a fresh array of the new length that starts with the old contents, every new element zero |
| HandshakeHandler.WireResponse | src/Fleck/HandshakeHandler.cs:134-137 | UTF-8 of the response text followed by the answer bytes; the length is the sum of the two |
| Utf8.Encode | src/Fleck/HandshakeHandler.cs:134 | `Encoding.UTF8.GetBytes`: each character as its one to four UTF-8 bytes, never fewer bytes than characters; `EncodeAppend`, `EncodeAscii` and `EncodeNoFF` state its properties |
| Utf8.EncodeAppend | src/Fleck/HandshakeHandler.cs:134 | Encoding distributes over concatenation |
| Utf8.EncodeNoFF | src/Fleck.Tests/Draft76HandlerTests.cs:85-99 | UTF-8 never contains 0xFF, so a text cannot end a Draft76 frame early |
| HeaderBlock.Render | src/Fleck.Tests/Hybi13HandlerTests.cs:249-255 | The CR LF rendering of both handshake responses: each line followed by CR LF, then an empty line; `ReadRendered` shows a peer reads the lines back |
| HeaderBlock.ReadRendered | src/Fleck.Tests/Hybi13HandlerTests.cs:249-255 | A rendered block of CR-free lines reads back as exactly those lines, followed by the bytes after the blank line |
| Wire.BigEndian | src/Fleck/HandshakeHandler.cs:175-177 | The low w bytes of a number, most significant first, as ParseKey writes the key value and FrameClose the code; `BigEndianRoundTrip` and `FromBigEndianRoundTrip` make it an inverse pair with `FromBigEndian` |
| Wire.BigEndianRoundTrip | src/Fleck.Tests/Hybi13HandlerTests.cs:217-235 | A value below 256^w written in w big-endian bytes reads back unchanged |
| Wire.FromBigEndianRoundTrip | src/Fleck.Tests/Hybi13HandlerTests.cs:217-235 | Any w bytes, read as a number and written back in w bytes, are unchanged |
| Wire.XorInvolutive | src/Fleck.Tests/Hybi13HandlerTests.cs:89-107 | XOR with the same key byte twice gives the byte back |
| Hybi13Frame.Mask | src/Fleck.Tests/Hybi13HandlerTests.cs:89-107 | The masking of section 5.3 of RFC 6455: each byte XOR the key byte at its position modulo 4; the length is kept and `MaskInvolutive` is its inverse |
| Hybi13Frame.MaskInvolutive | src/Fleck.Tests/Hybi13HandlerTests.cs:89-107 | Masking twice with one key gives the payload back |
| Hybi13Frame.LengthField | src/Fleck.Tests/Hybi13HandlerTests.cs:197-235 | Byte 1 carries the mask bit, followed by 0, 2 or 8 extended length bytes by length class |
| Hybi13Frame.FirstByte | src/Fleck.Tests/Hybi13HandlerTests.cs:57-77 | Bit 7 is FIN and the low four bits are the opcode |
| Hybi13Frame.EncodeLayout | src/Fleck.Tests/Hybi13HandlerTests.cs:57-77 | Frame size, first two bytes, the mask key's position, and payload (masked if keyed) at the end |
| Hybi13Frame.ParseFrame | src/Fleck.Tests/Hybi13HandlerTests.cs:79-107 | A parsed frame consumes between 1 byte and the whole buffer |
| Hybi13Frame.ParseEncoded | src/Fleck.Tests/Hybi13HandlerTests.cs:89-107 | Any masked frame parses back to itself, whatever follows it |
| Hybi13Frame.ParseUnmaskedEncoded | src/Fleck.Tests/Hybi13HandlerTests.cs:79-86 | Any unmasked frame is refused as Unmasked |
| Hybi13Frame.ParseStable | src/Fleck.Tests/Hybi13HandlerTests.cs:130-161 | Once the front of the buffer is decided, more bytes do not change the decision |
| Hybi13Frame.PrefixNeedsMore | src/Fleck.Tests/Hybi13HandlerTests.cs:130-161 | Every strict prefix of a masked frame is still incomplete |
| Hybi13Frame.Encode | src/Fleck.Tests/Hybi13HandlerTests.cs:57-77 | The wire form of a frame in section 5.2 of RFC 6455; `EncodeLayout` gives its layout and `ParseEncoded` shows parsing inverts it |
| Hybi13Frame.FrameText | src/Fleck.Tests/Hybi13HandlerTests.cs:57-66 | The server's text frame: final, opcode Text, unmasked, the UTF-8 text; `FrameTextLayout` and `FrameTextHello` state it |
| Hybi13Frame.FrameClose | src/Fleck.Tests/Hybi13HandlerTests.cs:68-77 | The server's close frame: final, opcode Close, unmasked, the code in two big-endian bytes; `FrameCloseExample` states the test's bytes |
| Hybi13Frame.FrameTextLayout | src/Fleck.Tests/Hybi13HandlerTests.cs:57-66 | A text frame begins 0x81, has the mask bit clear, uses the smallest length class, and ends with the UTF-8 text |
| Hybi13Frame.FrameTextHello | src/Fleck.Tests/Hybi13HandlerTests.cs:60-65 | FrameText("Hello") is 129, 5, 72, 101, 108, 108, 111 |
| Hybi13Frame.FrameCloseExample | src/Fleck.Tests/Hybi13HandlerTests.cs:71-76 | FrameClose(1002) is 136, 2, 3, 234 |
| Hybi13Frame.LengthClassExamples | src/Fleck.Tests/Hybi13HandlerTests.cs:197-235 | Length fields for 14, 8000 and 131070 bytes are [142], [254,31,64] and [255,0,0,0,0,0,1,255,254] |
| Hybi13Handler.CreateResponseKey | src/Fleck.Tests/Hybi13HandlerTests.cs:26-35 | The accept key of section 4.2.2 of RFC 6455: base64 of SHA-1 over the nonce followed by the fixed GUID |
| Hybi13Handler.ResponseKeyInput | src/Fleck.Tests/Hybi13HandlerTests.cs:26-35 | The accept key is base64 of the SHA-1 of the nonce's bytes followed by the GUID's bytes |
| Hybi13Handler.CreateHandshake | src/Fleck.Tests/Hybi13HandlerTests.cs:37-55 | The UTF-8 bytes of the rendered four-line response; `HandshakeReadsBack` shows what a peer reads from it |
| Hybi13Handler.HandshakeLines | src/Fleck.Tests/Hybi13HandlerTests.cs:249-255 | The response has exactly four lines |
| Hybi13Handler.HandshakeReadsBack | src/Fleck.Tests/Hybi13HandlerTests.cs:37-55 | A peer reading the response finds exactly the four lines, a blank line and nothing after it; no protocol line is echoed |
| Hybi13Handler.ExampleHandshake | src/Fleck.Tests/Hybi13HandlerTests.cs:249-255 | Given the example accept key, the lines are the example response's lines, whatever subprotocol was requested |
| Hybi13Handler.CloseCode | src/Fleck.Tests/Hybi13HandlerTests.cs:178-195 | A Close payload of 2 or more bytes carries the code big-endian in its first two bytes; a shorter one carries none |
| Hybi13Handler.Apply | src/Fleck.Tests/Hybi13HandlerTests.cs:89-195 | One frame through the reassembly state machine: the events it raises, the new state, or the violation |
| Hybi13Handler.Drain | src/Fleck.Tests/Hybi13HandlerTests.cs:89-195 | All whole frames at the front of the buffer, processed in order until the bytes run out or a violation stops it; the specification of `Receive` |
| Hybi13Handler.DrainRest | src/Fleck.Tests/Hybi13HandlerTests.cs:130-161 | The leftover bytes are a suffix of the buffer; with no violation, they are not yet a whole frame |
| Hybi13Handler.DrainAppend | src/Fleck.Tests/Hybi13HandlerTests.cs:155-160 | Receiving a then b is the same as receiving a + b; after a violation the events are unchanged |
| Hybi13Handler.DrainEmpty | src/Fleck.Tests/Hybi13HandlerTests.cs:16-24 | An empty buffer yields no events and no violation, and keeps the state |
| Hybi13Handler.DrainFrame | src/Fleck.Tests/Hybi13HandlerTests.cs:89-107 | An accepted masked frame's events come before those of the bytes after it |
| Hybi13Handler.FinalFrameDelivers | src/Fleck.Tests/Hybi13HandlerTests.cs:89-107 | A final masked Text or Binary frame of any length class delivers exactly its payload, once, with nothing left |
| Hybi13Handler.NonFinalFrameWaits | src/Fleck.Tests/Hybi13HandlerTests.cs:110-128 | A non-final first fragment delivers nothing and starts assembling its payload |
| Hybi13Handler.FragmentsJoin | src/Fleck.Tests/Hybi13HandlerTests.cs:130-161 | A fragment and a final continuation with different keys, in two receives, deliver one message, the payloads in order |
| Hybi13Handler.UnexpectedContinuationFails | src/Fleck.Tests/Hybi13HandlerTests.cs:163-176 | A continuation with no message in progress is UnexpectedContinuation and nothing is consumed |
| Hybi13Handler.InterleavedDataFails | src/Fleck.Tests/Hybi13HandlerTests.cs:163-176 | A Text or Binary frame in the middle of a fragmented message is UnexpectedDataFrame |
| Hybi13Handler.CloseReports | src/Fleck.Tests/Hybi13HandlerTests.cs:178-195 | A Close frame reports Closed with its code and leaves the reassembly state alone |
| Hybi13Handler.PingPongIgnored | src/Fleck.Tests/Hybi13HandlerTests.cs:89-107 | As the receive path of the text-frame test, for the control frames of section 5.5 of RFC 6455: a Ping or Pong is consumed with no event and no change of state |
| Hybi13Handler.ReservedOpcodeFails | src/Fleck.Tests/Hybi13HandlerTests.cs:79-86 | Like the unmasked-frame refusal, but for the reserved opcodes of section 5.2 of RFC 6455: the ReservedOpcode violation, with nothing consumed |
| Hybi13Handler.CloseCodeExample | src/Fleck.Tests/Hybi13HandlerTests.cs:187 | Code 1000 sent big-endian is read back as 1000 |
| Hybi13Handler.UnmaskedFails | src/Fleck.Tests/Hybi13HandlerTests.cs:79-86 | The bytes of a server text frame are refused as UnmaskedFrame, with no events |
| Hybi13Handler.SplitFrameDelivers | src/Fleck.Tests/Hybi13HandlerTests.cs:130-161 | A frame split at any point across two receives is delivered once, when its last byte arrives |
| Hybi13Handler.Hybi13Receiver.constructor | src/Fleck.Tests/Hybi13HandlerTests.cs:16-24 | A new handler has an empty buffer and no message in progress |
| Hybi13Handler.Hybi13Receiver.Receive | src/Fleck.Tests/Hybi13HandlerTests.cs:155-160 | Events, violation, new state and leftover bytes are exactly `Drain` of the old state on the old buffer plus the chunk |
| Draft76Handler.FrameTextHello | src/Fleck.Tests/Draft76HandlerTests.cs:74-83 | FrameText("Hello") is 0, 72, 101, 108, 108, 111, 255 |
| Draft76Handler.FrameText | src/Fleck.Tests/Draft76HandlerTests.cs:74-83 | A text framed as 0x00, its UTF-8 bytes, then 0xFF; `ScanFrameText` shows receiving inverts it |
| Draft76Handler.Scan | src/Fleck.Tests/Draft76HandlerTests.cs:85-143 | The frames at the front of the buffer, each from 0x00 to the first 0xFF, until the bytes run out or a frame does not start with 0x00; the specification of `Receive` |
| Draft76Handler.FirstIndex | src/Fleck.Tests/Draft76HandlerTests.cs:85-99 | The index of the first occurrence, with none before it, or None iff absent |
| Draft76Handler.IndexOf | src/Fleck.Tests/Draft76HandlerTests.cs:85-99 | The scanning loop finds the same index as `FirstIndex` |
| Draft76Handler.ScanFrameText | src/Fleck.Tests/Draft76HandlerTests.cs:85-99 | A framed text followed by anything yields the text's UTF-8 bytes first, then the rest's messages |
| Draft76Handler.ScanFrameAll | src/Fleck.Tests/Draft76HandlerTests.cs:85-99 | Receiving the frames of any list of texts yields exactly their bytes, in order, with nothing left over |
| Draft76Handler.CompleteFrameDelivers | src/Fleck.Tests/Draft76HandlerTests.cs:85-99 | 0x00 + text + 0xFF delivers the text exactly once and leaves nothing buffered |
| Draft76Handler.IncompleteFrameWaits | src/Fleck.Tests/Draft76HandlerTests.cs:101-114 | 0x00 + text without 0xFF delivers nothing and keeps every byte buffered |
| Draft76Handler.InvalidStartFails | src/Fleck.Tests/Draft76HandlerTests.cs:139-143 | A buffer not starting with 0x00 is InvalidFrameStart and nothing is consumed |
| Draft76Handler.InvalidStartExample | src/Fleck.Tests/Draft76HandlerTests.cs:139-143 | The single byte 87 is refused |
| Draft76Handler.ScanAppend | src/Fleck.Tests/Draft76HandlerTests.cs:116-137 | Receiving a then b is the same as receiving a + b; after a violation the messages are unchanged |
| Draft76Handler.SplitFrameDelivers | src/Fleck.Tests/Draft76HandlerTests.cs:116-137 | A text split across two receives, with 0xFF in the second, is delivered once, whole, after the second |
| Draft76Handler.EmptyChunkAfterFrame | src/Fleck.Tests/Draft76HandlerTests.cs:116-137 | The test as written: a whole frame, then an empty chunk that delivers nothing more |
| Draft76Handler.ScanRest | src/Fleck.Tests/Draft76HandlerTests.cs:101-114 | What stays buffered is a suffix of the input; with no violation it is empty, or an unterminated frame starting 0x00 |
| Draft76Handler.ScanMessagesNoEnd | src/Fleck.Tests/Draft76HandlerTests.cs:85-99 | No delivered message contains 0xFF |
| Draft76Handler.Draft76Receiver.constructor | src/Fleck.Tests/Draft76HandlerTests.cs:17-23 | A new handler has an empty buffer |
| Draft76Handler.Draft76Receiver.Receive | src/Fleck.Tests/Draft76HandlerTests.cs:116-137 | Messages, violation and kept bytes are exactly `Scan` of the old buffer plus the chunk |
| Draft76Handler.ResponseLines | src/Fleck.Tests/Draft76HandlerTests.cs:37-45 | Five lines, plus a sixth `Sec-WebSocket-Protocol` line exactly when the request names a subprotocol |
| Draft76Handler.Challenge | src/Fleck.Tests/Draft76HandlerTests.cs:25-35 | The challenge is the last 8 bytes of the raw request |
| Draft76Handler.CreateHandshake | src/Fleck.Tests/Draft76HandlerTests.cs:52-72 | A successful response is exactly 16 bytes longer than the encoded header block; `HandshakeFailures`, `HandshakeReadsBack` and `ExampleHandshake` state what it holds |
| Draft76Handler.HandshakeFailures | src/Fleck.Tests/Draft76HandlerTests.cs:52-72 | Fails iff the request is under 8 bytes (ShortHandshake) or a key fails, with key1's error first |
| Draft76Handler.HandshakeReadsBack | src/Fleck.Tests/Draft76HandlerTests.cs:37-45 | A peer reading the response finds the response lines, a blank line, then exactly the answer bytes, of which there are 16 |
| Draft76Handler.ExampleHandshake | src/Fleck.Tests/Draft76HandlerTests.cs:52-72 | The example request gets the example response lines, then the digest of 49,110,65,19, 15,126,214,60 and "^n:ds[4U" |

## Left out

- Socket I/O and callbacks are not modelled: `WebSocketServer`, `Sender`, `HandshakeHandler.Shake`, `DoShake`, the send in `BeginSendServerHandshake`, and `EndSendServerHandshake`. This is network plumbing with no protocol logic.
- `ClientHandshake.Validate` and `ServerHandshake.ToResponseString` are not part of this model. `GenerateResponseHandshake` produces the `ServerHandshake` record, and `WireResponse` takes the response text as a parameter.
- MD5, SHA-1 and base64 are parameters, so the digest test vectors are not proved. These are the accept key "s3pPLMBiTxaQ9kYGzzhZRbK+xOo=" and the answer "8jKS'y:G*Co,Wxa-".
- Hybi13Handler.ExampleHandshake: takes the example accept key as a precondition instead of computing it, because SHA-1 and base64 are parameters.
- Draft76Handler.ExampleHandshake: states the exact 16 bytes that are digested, not the digest, because MD5 is a parameter.
- The request regular expression of `ParseClientHandshake` and its UTF-8 decoding are not modelled. They are one parameter that yields the path and the captured (name, value) pairs in order.
- Utf8.Encode: does not cover strings with an unpaired UTF-16 surrogate, which a Dafny `string` cannot hold. `Encoding.UTF8.GetBytes` replaces such a surrogate with EF BF BD.
- UTF-8 decoding of received payloads is not modelled. Messages are delivered as the payload bytes, not as decoded strings.
- HandshakeHandler.IsDigit: only ASCII '0'..'9' count as digits. `Char.IsDigit` also accepts other Unicode decimal digits, which `Int64.Parse` would reject.
- HandshakeHandler.Lower: always folds only the ASCII letters A..Z. The source calls the parameterless `name.ToLower()`, which uses the current culture. Under a Turkish culture, for example, both capital I's of "ORIGIN" become the dotless ı, giving "orıgın", so the name goes to the additional fields. The model does not capture this.
- Hybi13Frame.ParseFrame: does not check the RSV bits. The 64-bit length is read whole, including its top bit.
- Hybi13Handler.Apply: a Ping gets no Pong reply, because sending is I/O.
- Hybi13Handler.Apply: accepts non-final control frames and control frames with more than 125 payload bytes. Section 5.5 of RFC 6455 forbids both, but no test of the handler fixes this, and a Close frame is handled the same whatever its FIN bit.
- No frame-size limit is modelled for either handler.
- Header lookup in the request record uses exact keys, because the comparer of the request's header dictionary is not part of this model.
