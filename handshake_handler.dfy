/** The draft-76 opening handshake of src/Fleck/HandshakeHandler.cs: the key
    arithmetic of section 5.2 of draft-hixie-thewebsocketprotocol-76, the
    16-byte challenge answer, the dispatch of request header fields, and the
    assembly of the response. The MD5 digest, UTF-8 decoding and the request
    regular expression are passed in as functions. */
module HandshakeHandler {
  import opened Wire
  import Utf8

  /** Why a handshake could not be answered (each an exception in the source). */
  datatype HandshakeError =
    | ShortHandshake   // fewer than eight bytes received for the challenge
    | MissingKey       // a key header is absent (ParseKey of null)
    | NoDigits         // Int64.Parse of an empty digit string
    | Int64Overflow    // the digit string exceeds Int64.MaxValue
    | NoSpaces         // division by a space count of zero

  const INT64_MAX: int := 0x7FFF_FFFF_FFFF_FFFF
  const TWO32: int := 0x1_0000_0000

  // ---------------------------------------------------------------------
  // ParseKey: spaces, digits, quotient, 32-bit truncation, big-endian bytes
  // ---------------------------------------------------------------------

  predicate IsDigit(c: char)
  {
    '0' <= c <= '9'
  }

  predicate AllDigits(d: string)
  {
    forall i :: 0 <= i < |d| ==> IsDigit(d[i])
  }

  /** The number of occurrences of c in key[i..]. */
  function OccurrencesFrom(key: string, i: nat, c: char): (n: nat)
    requires i <= |key|
    ensures n <= |key| - i
    decreases |key| - i
  {
    if i == |key| then 0 else (if key[i] == c then 1 else 0) + OccurrencesFrom(key, i + 1, c)
  }

  /** The number of ' ' characters of a key. */
  function CountSpaces(key: string): (n: nat)
    ensures n <= |key|
  {
    OccurrencesFrom(key, 0, ' ')
  }

  /** The digit characters of key[i..], in their original order. */
  function DigitsFrom(key: string, i: nat): (d: string)
    requires i <= |key|
    decreases |key| - i
  {
    if i == |key| then [] else (if IsDigit(key[i]) then [key[i]] else []) + DigitsFrom(key, i + 1)
  }

  lemma {:induction false} DigitsFromBounds(key: string, i: nat)
    requires i <= |key|
    ensures |DigitsFrom(key, i)| <= |key| - i && AllDigits(DigitsFrom(key, i))
    decreases |key| - i
  {
    if i < |key| {
      DigitsFromBounds(key, i + 1);
    }
  }

  /** The digit characters of a key, in their original order. */
  function Digits(key: string): (d: string)
    ensures |d| <= |key|
    ensures AllDigits(d)
  {
    DigitsFromBounds(key, 0);
    DigitsFrom(key, 0)
  }

  function DigitValue(c: char): (v: nat)
    requires IsDigit(c)
    ensures v < 10
  {
    c as int - '0' as int
  }

  /** The value of a string of decimal digits, read left to right onto acc. */
  function DecimalFrom(acc: nat, d: string): (n: nat)
    requires AllDigits(d)
    decreases |d|
  {
    if d == [] then acc else DecimalFrom(acc * 10 + DigitValue(d[0]), d[1..])
  }

  function Decimal(d: string): (n: nat)
    requires AllDigits(d)
  {
    DecimalFrom(0, d)
  }

  /** Int64.Parse of a digit string: empty fails, beyond Int64.MaxValue overflows. */
  function ParseInt64(d: string): (r: Result<nat, HandshakeError>)
    requires AllDigits(d)
    ensures r.Success? ==> d != [] && r.value == Decimal(d) <= INT64_MAX
    ensures r.Failure? ==> (d == [] && r.error == NoDigits) || (d != [] && r.error == Int64Overflow && Decimal(d) > INT64_MAX)
  {
    if d == [] then Failure(NoDigits)
    else if Decimal(d) > INT64_MAX then Failure(Int64Overflow)
    else Success(Decimal(d))
  }

  /** The unchecked (Int32) cast of a long: the low 32 bits read as two's complement. */
  function Int32Cast(x: int): (v: int)
    ensures -0x8000_0000 <= v < 0x8000_0000
    ensures (v - x) % TWO32 == 0
  {
    var m := x % TWO32;
    if m >= 0x8000_0000 then m - TWO32 else m
  }

  /** Int64.Parse(digits) / spaces, in the order the source evaluates them. */
  function KeyQuotient(key: string): (r: Result<nat, HandshakeError>)
  {
    match ParseInt64(Digits(key))
    case Failure(e) => Failure(e)
    case Success(n) => if CountSpaces(key) == 0 then Failure(NoSpaces) else Success(n / CountSpaces(key))
  }

  /** The four bytes ParseKey returns: the Int32 value, most significant byte first. */
  function KeyBytes(key: Option<string>): (r: Result<seq<byte>, HandshakeError>)
    ensures r.Success? ==> |r.value| == 4
  {
    match key
    case None => Failure(MissingKey)
    case Some(k) =>
      match KeyQuotient(k)
      case Failure(e) => Failure(e)
      case Success(q) => Success(BigEndian(Int32Cast(q) % TWO32, 4))
  }

  /** BitConverter.GetBytes of an Int32: four bytes in the platform's order. */
  method GetBytes(value: int, littleEndian: bool) returns (a: array<byte>)
    requires -0x8000_0000 <= value < 0x8000_0000
    ensures fresh(a) && a.Length == 4
    ensures var be := BigEndian(value % TWO32, 4);
      a[..] == if littleEndian then [be[3], be[2], be[1], be[0]] else be
  {
    var be := BigEndian(value % TWO32, 4);
    a := new byte[4];
    if littleEndian {
      a[0], a[1], a[2], a[3] := be[3], be[2], be[1], be[0];
    } else {
      a[0], a[1], a[2], a[3] := be[0], be[1], be[2], be[3];
    }
  }

  /** Array.Reverse: swaps the array end for end in place. */
  method Reverse(a: array<byte>)
    modifies a
    ensures forall i :: 0 <= i < a.Length ==> a[i] == old(a[a.Length - 1 - i])
  {
    var lo, hi := 0, a.Length - 1;
    while lo < hi
      invariant 0 <= lo <= a.Length && hi == a.Length - 1 - lo
      invariant forall i :: 0 <= i < lo ==> a[i] == old(a[a.Length - 1 - i]) && a[a.Length - 1 - i] == old(a[i])
      invariant forall i :: lo <= i <= hi ==> a[i] == old(a[i])
    {
      a[lo], a[hi] := a[hi], a[lo];
      lo, hi := lo + 1, hi - 1;
    }
  }

  /** ParseKey: on either platform the result is the big-endian Int32 quotient. */
  method ParseKey(key: Option<string>, littleEndian: bool) returns (r: Result<seq<byte>, HandshakeError>)
    ensures r == KeyBytes(key)
  {
    if key.None? {
      return Failure(MissingKey);
    }
    var spaces := CountSpaces(key.value);
    var digits := Digits(key.value);
    var parsed := ParseInt64(digits);
    if parsed.Failure? {
      return Failure(parsed.error);
    }
    if spaces == 0 {
      return Failure(NoSpaces);
    }
    var value := Int32Cast(parsed.value / spaces);
    var result := GetBytes(value, littleEndian);
    ghost var be := BigEndian(value % TWO32, 4);
    if littleEndian {
      Reverse(result);
      assert result[0] == be[0] && result[1] == be[1] && result[2] == be[2] && result[3] == be[3];
    }
    assert result[..] == be;
    r := Success(result[..]);
  }

  /** Counting is exactly the multiplicity of ' ' in the key. */
  lemma CountSpacesIsMultiplicity(key: string)
    ensures CountSpaces(key) == multiset(key)[' ']
  {
    OccurrencesFromMultiplicity(key, 0, ' ');
    assert key[0..] == key;
  }

  lemma MultiplicityCons(x: char, t: string, c: char)
    ensures multiset([x] + t)[c] == (if x == c then 1 else 0) + multiset(t)[c]
  {
    assert multiset([x] + t) == multiset([x]) + multiset(t);
  }

  lemma {:induction false} OccurrencesFromMultiplicity(key: string, i: nat, c: char)
    requires i <= |key|
    ensures OccurrencesFrom(key, i, c) == multiset(key[i..])[c]
    decreases |key| - i
  {
    if i < |key| {
      assert key[i..] == [key[i]] + key[i + 1..];
      MultiplicityCons(key[i], key[i + 1..], c);
      OccurrencesFromMultiplicity(key, i + 1, c);
    }
  }

  lemma {:induction false} DigitsFromOccurrences(key: string, i: nat, c: char)
    requires i <= |key|
    ensures multiset(DigitsFrom(key, i))[c] == if IsDigit(c) then OccurrencesFrom(key, i, c) else 0
    decreases |key| - i
  {
    if i < |key| {
      var x, tail := key[i], DigitsFrom(key, i + 1);
      var here := if x == c then 1 else 0;
      var rest := OccurrencesFrom(key, i + 1, c);
      assert OccurrencesFrom(key, i, c) == here + rest;
      DigitsFromOccurrences(key, i + 1, c);
      assert multiset(tail)[c] == if IsDigit(c) then rest else 0;
      if IsDigit(x) {
        assert DigitsFrom(key, i) == [x] + tail;
        MultiplicityCons(x, tail, c);
        assert multiset([x] + tail)[c] == here + multiset(tail)[c];
      } else {
        assert DigitsFrom(key, i) == [] + tail == tail;
        assert IsDigit(c) ==> here == 0;
      }
    }
  }

  /** Every digit of the key occurs in the digit string as often as in the key,
      and nothing else occurs there. */
  lemma DigitsMultiplicity(key: string, c: char)
    ensures multiset(Digits(key))[c] == if IsDigit(c) then multiset(key)[c] else 0
  {
    DigitsFromOccurrences(key, 0, c);
    OccurrencesFromMultiplicity(key, 0, c);
    assert key[0..] == key;
  }

  /** A key that is all digits is its own digit string. */
  lemma {:induction false} DigitsOfDigits(key: string, i: nat)
    requires i <= |key|
    requires forall j :: i <= j < |key| ==> IsDigit(key[j])
    ensures DigitsFrom(key, i) == key[i..]
    decreases |key| - i
  {
    if i < |key| {
      DigitsOfDigits(key, i + 1);
      assert key[i..] == [key[i]] + key[i + 1..];
    }
  }

  /** A key without a space, or without a digit, yields no bytes. */
  lemma KeyFailures(key: string)
    ensures Digits(key) == [] ==> KeyBytes(Some(key)) == Failure(NoDigits)
    ensures Digits(key) != [] && Decimal(Digits(key)) <= INT64_MAX && CountSpaces(key) == 0 ==>
              KeyBytes(Some(key)) == Failure(NoSpaces)
    ensures KeyBytes(Some(key)).Success? ==> CountSpaces(key) > 0 && Digits(key) != []
  {
  }

  /** When the quotient fits in 31 bits the bytes are its plain big-endian form. */
  lemma KeyBytesOfSmallQuotient(key: string)
    requires KeyQuotient(key).Success? && KeyQuotient(key).value < 0x8000_0000
    ensures KeyBytes(Some(key)) == Success(BigEndian(KeyQuotient(key).value, 4))
    ensures FromBigEndian(KeyBytes(Some(key)).value) == KeyQuotient(key).value
  {
    var q := KeyQuotient(key).value;
    assert Int32Cast(q) == q;
    assert Pow256(4) == TWO32;
    BigEndianRoundTrip(q, 4);
  }

  /** Whatever the quotient, the four bytes read back as it modulo 2^32:
      the (Int32) cast keeps the low 32 bits and GetBytes writes exactly those. */
  lemma KeyBytesValue(key: string)
    requires KeyQuotient(key).Success?
    ensures KeyBytes(Some(key)) == Success(BigEndian(KeyQuotient(key).value % TWO32, 4))
    ensures FromBigEndian(KeyBytes(Some(key)).value) == KeyQuotient(key).value % TWO32
  {
    var q := KeyQuotient(key).value;
    var m := q % TWO32;
    assert Int32Cast(q) % TWO32 == m by {
      assert Int32Cast(q) == m || Int32Cast(q) == m - TWO32;
    }
    assert Pow256(4) == TWO32;
    BigEndianRoundTrip(m, 4);
  }

  /** The value of the digits of key[i..], read left to right onto acc.
      It equals DecimalFrom(acc, DigitsFrom(key, i)) (ValueFromDigits) and
      exists only so that the example keys can be evaluated in one pass. */
  function ValueFrom(acc: nat, key: string, i: nat): (n: nat)
    requires i <= |key|
    decreases |key| - i
  {
    if i == |key| then acc
    else ValueFrom(if IsDigit(key[i]) then acc * 10 + DigitValue(key[i]) else acc, key, i + 1)
  }

  /** Reading the digit string is reading the digits where they stand in the key. */
  lemma {:induction false} ValueFromDigits(acc: nat, key: string, i: nat)
    requires i <= |key|
    ensures AllDigits(DigitsFrom(key, i)) && DecimalFrom(acc, DigitsFrom(key, i)) == ValueFrom(acc, key, i)
    decreases |key| - i
  {
    DigitsFromBounds(key, i);
    if i < |key| {
      var rest := DigitsFrom(key, i + 1);
      if IsDigit(key[i]) {
        ValueFromDigits(acc * 10 + DigitValue(key[i]), key, i + 1);
        assert ([key[i]] + rest)[0] == key[i] && ([key[i]] + rest)[1..] == rest;
      } else {
        ValueFromDigits(acc, key, i + 1);
        assert [] + rest == rest;
      }
    }
  }

  /** The two example keys of draft-hixie-thewebsocketprotocol-76. */
  const EXAMPLE_KEY1 := "4 @1  46546xW%0l 1 5"
  const EXAMPLE_KEY2 := "12998 5 Y3 1  .P00"

  /** The first example key, character by character. */
  predicate IsExampleKey1(k: string)
  {
    && |k| == 20
    && k[0] == '4' && k[1] == ' ' && k[2] == '@' && k[3] == '1' && k[4] == ' '
    && k[5] == ' ' && k[6] == '4' && k[7] == '6' && k[8] == '5' && k[9] == '4'
    && k[10] == '6' && k[11] == 'x' && k[12] == 'W' && k[13] == '%' && k[14] == '0'
    && k[15] == 'l' && k[16] == ' ' && k[17] == '1' && k[18] == ' ' && k[19] == '5'
  }

  /** The second example key, character by character. */
  predicate IsExampleKey2(k: string)
  {
    && |k| == 18
    && k[0] == '1' && k[1] == '2' && k[2] == '9' && k[3] == '9' && k[4] == '8'
    && k[5] == ' ' && k[6] == '5' && k[7] == ' ' && k[8] == 'Y' && k[9] == '3'
    && k[10] == ' ' && k[11] == '1' && k[12] == ' ' && k[13] == ' ' && k[14] == '.'
    && k[15] == 'P' && k[16] == '0' && k[17] == '0'
  }

  /** The two predicates describe exactly the two constants. */
  lemma ExampleKeysDescribed()
    ensures IsExampleKey1(EXAMPLE_KEY1) && IsExampleKey2(EXAMPLE_KEY2)
  {
  }

  /** Scanning the first example key, step by step. */
  lemma ExampleKey1Scan(k: string)
    requires IsExampleKey1(k)
    ensures ValueFrom(0, k, 0) == 4146546015 && OccurrencesFrom(k, 0, ' ') == 5
  {
    assert ValueFrom(0, k, 0) == ValueFrom(4, k, 1);
    assert ValueFrom(4, k, 1) == ValueFrom(4, k, 2);
    assert ValueFrom(4, k, 2) == ValueFrom(4, k, 3);
    assert ValueFrom(4, k, 3) == ValueFrom(41, k, 4);
    assert ValueFrom(41, k, 4) == ValueFrom(41, k, 5);
    assert ValueFrom(41, k, 5) == ValueFrom(41, k, 6);
    assert ValueFrom(41, k, 6) == ValueFrom(414, k, 7);
    assert ValueFrom(414, k, 7) == ValueFrom(4146, k, 8);
    assert ValueFrom(4146, k, 8) == ValueFrom(41465, k, 9);
    assert ValueFrom(41465, k, 9) == ValueFrom(414654, k, 10);
    assert ValueFrom(414654, k, 10) == ValueFrom(4146546, k, 11);
    assert ValueFrom(4146546, k, 11) == ValueFrom(4146546, k, 12);
    assert ValueFrom(4146546, k, 12) == ValueFrom(4146546, k, 13);
    assert ValueFrom(4146546, k, 13) == ValueFrom(4146546, k, 14);
    assert ValueFrom(4146546, k, 14) == ValueFrom(41465460, k, 15);
    assert ValueFrom(41465460, k, 15) == ValueFrom(41465460, k, 16);
    assert ValueFrom(41465460, k, 16) == ValueFrom(41465460, k, 17);
    assert ValueFrom(41465460, k, 17) == ValueFrom(414654601, k, 18);
    assert ValueFrom(414654601, k, 18) == ValueFrom(414654601, k, 19);
    assert ValueFrom(414654601, k, 19) == ValueFrom(4146546015, k, 20);
    assert OccurrencesFrom(k, 19, ' ') == 0;
    assert OccurrencesFrom(k, 18, ' ') == 1;
    assert OccurrencesFrom(k, 17, ' ') == 1;
    assert OccurrencesFrom(k, 16, ' ') == 2;
    assert OccurrencesFrom(k, 15, ' ') == 2;
    assert OccurrencesFrom(k, 14, ' ') == 2;
    assert OccurrencesFrom(k, 13, ' ') == 2;
    assert OccurrencesFrom(k, 12, ' ') == 2;
    assert OccurrencesFrom(k, 11, ' ') == 2;
    assert OccurrencesFrom(k, 10, ' ') == 2;
    assert OccurrencesFrom(k, 9, ' ') == 2;
    assert OccurrencesFrom(k, 8, ' ') == 2;
    assert OccurrencesFrom(k, 7, ' ') == 2;
    assert OccurrencesFrom(k, 6, ' ') == 2;
    assert OccurrencesFrom(k, 5, ' ') == 3;
    assert OccurrencesFrom(k, 4, ' ') == 4;
    assert OccurrencesFrom(k, 3, ' ') == 4;
    assert OccurrencesFrom(k, 2, ' ') == 4;
    assert OccurrencesFrom(k, 1, ' ') == 5;
  }

  /** Scanning the second example key, step by step. */
  lemma ExampleKey2Scan(k: string)
    requires IsExampleKey2(k)
    ensures ValueFrom(0, k, 0) == 1299853100 && OccurrencesFrom(k, 0, ' ') == 5
  {
    assert ValueFrom(0, k, 0) == ValueFrom(1, k, 1);
    assert ValueFrom(1, k, 1) == ValueFrom(12, k, 2);
    assert ValueFrom(12, k, 2) == ValueFrom(129, k, 3);
    assert ValueFrom(129, k, 3) == ValueFrom(1299, k, 4);
    assert ValueFrom(1299, k, 4) == ValueFrom(12998, k, 5);
    assert ValueFrom(12998, k, 5) == ValueFrom(12998, k, 6);
    assert ValueFrom(12998, k, 6) == ValueFrom(129985, k, 7);
    assert ValueFrom(129985, k, 7) == ValueFrom(129985, k, 8);
    assert ValueFrom(129985, k, 8) == ValueFrom(129985, k, 9);
    assert ValueFrom(129985, k, 9) == ValueFrom(1299853, k, 10);
    assert ValueFrom(1299853, k, 10) == ValueFrom(1299853, k, 11);
    assert ValueFrom(1299853, k, 11) == ValueFrom(12998531, k, 12);
    assert ValueFrom(12998531, k, 12) == ValueFrom(12998531, k, 13);
    assert ValueFrom(12998531, k, 13) == ValueFrom(12998531, k, 14);
    assert ValueFrom(12998531, k, 14) == ValueFrom(12998531, k, 15);
    assert ValueFrom(12998531, k, 15) == ValueFrom(12998531, k, 16);
    assert ValueFrom(12998531, k, 16) == ValueFrom(129985310, k, 17);
    assert ValueFrom(129985310, k, 17) == ValueFrom(1299853100, k, 18);
    assert OccurrencesFrom(k, 17, ' ') == 0;
    assert OccurrencesFrom(k, 16, ' ') == 0;
    assert OccurrencesFrom(k, 15, ' ') == 0;
    assert OccurrencesFrom(k, 14, ' ') == 0;
    assert OccurrencesFrom(k, 13, ' ') == 1;
    assert OccurrencesFrom(k, 12, ' ') == 2;
    assert OccurrencesFrom(k, 11, ' ') == 2;
    assert OccurrencesFrom(k, 10, ' ') == 3;
    assert OccurrencesFrom(k, 9, ' ') == 3;
    assert OccurrencesFrom(k, 8, ' ') == 3;
    assert OccurrencesFrom(k, 7, ' ') == 4;
    assert OccurrencesFrom(k, 6, ' ') == 4;
    assert OccurrencesFrom(k, 5, ' ') == 5;
    assert OccurrencesFrom(k, 4, ' ') == 5;
    assert OccurrencesFrom(k, 3, ' ') == 5;
    assert OccurrencesFrom(k, 2, ' ') == 5;
    assert OccurrencesFrom(k, 1, ' ') == 5;
  }

  /** The draft's worked example, first key: 4146546015 / 5 = 829309203. */
  lemma ExampleKey1(k: string)
    requires IsExampleKey1(k)
    ensures KeyQuotient(k) == Success(829309203)
    ensures KeyBytes(Some(k)) == Success([49, 110, 65, 19])
  {
    ExampleKey1Scan(k);
    ValueFromDigits(0, k, 0);
    KeyBytesOfSmallQuotient(k);
    assert BigEndian(829309203, 4) == [49, 110, 65, 19];
  }

  /** The draft's worked example, second key: 1299853100 / 5 = 259970620. */
  lemma ExampleKey2(k: string)
    requires IsExampleKey2(k)
    ensures KeyQuotient(k) == Success(259970620)
    ensures KeyBytes(Some(k)) == Success([15, 126, 214, 60])
  {
    ExampleKey2Scan(k);
    ValueFromDigits(0, k, 0);
    KeyBytesOfSmallQuotient(k);
    assert BigEndian(259970620, 4) == [15, 126, 214, 60];
  }


  // ---------------------------------------------------------------------
  // CalculateAnswerBytes: the 16-byte buffer and its digest
  // ---------------------------------------------------------------------

  /** What MD5.ComputeHash returns: always sixteen bytes. */
  type Digest = d: seq<byte> | |d| == 16 witness [0, 0, 0, 0, 0, 0, 0, 0, 0, 0, 0, 0, 0, 0, 0, 0]

  /** The digest of key1's bytes, key2's bytes and the challenge, or the first key's error. */
  function AnswerBytes(key1: Option<string>, key2: Option<string>, challenge: seq<byte>,
                       md5: seq<byte> -> Digest): (r: Result<seq<byte>, HandshakeError>)
    ensures r.Success? ==> |r.value| == 16
  {
    match KeyBytes(key1)
    case Failure(e) => Failure(e)
    case Success(k1) =>
      match KeyBytes(key2)
      case Failure(e) => Failure(e)
      case Success(k2) => Success(md5(k1 + k2 + challenge))
  }

  /** Array.Copy of a whole source into dst at the given offset. */
  method CopyInto(src: seq<byte>, dst: array<byte>, at: nat)
    requires at + |src| <= dst.Length
    modifies dst
    ensures dst[..] == old(dst[..at]) + src + old(dst[at + |src|..])
  {
    var i := 0;
    while i < |src|
      invariant 0 <= i <= |src|
      invariant forall j :: 0 <= j < at ==> dst[j] == old(dst[j])
      invariant forall j :: 0 <= j < i ==> dst[at + j] == src[j]
      invariant forall j :: at + i <= j < dst.Length ==> dst[j] == old(dst[j])
    {
      dst[at + i] := src[i];
      i := i + 1;
    }
    assert dst[..] == old(dst[..at]) + src + old(dst[at + |src|..]);
  }

  /** CalculateAnswerBytes: fills the 16-byte buffer and digests exactly it. */
  method CalculateAnswerBytes(key1: Option<string>, key2: Option<string>, challenge: seq<byte>,
                              md5: seq<byte> -> Digest, littleEndian: bool)
    returns (r: Result<seq<byte>, HandshakeError>)
    requires |challenge| == 8
    ensures r == AnswerBytes(key1, key2, challenge, md5)
  {
    var result1 := ParseKey(key1, littleEndian);
    if result1.Failure? {
      return Failure(result1.error);
    }
    var result2 := ParseKey(key2, littleEndian);
    if result2.Failure? {
      return Failure(result2.error);
    }
    var rawAnswer := new byte[16];
    CopyInto(result1.value, rawAnswer, 0);
    CopyInto(result2.value, rawAnswer, 4);
    CopyInto(challenge, rawAnswer, 8);
    assert rawAnswer[..] == result1.value + result2.value + challenge;
    r := Success(md5(rawAnswer[..]));
  }

  /** The digested buffer has key1's bytes at 0..3, key2's at 4..7 and the
      challenge at 8..15, and nothing else. */
  lemma AnswerLayout(key1: Option<string>, key2: Option<string>, challenge: seq<byte>, md5: seq<byte> -> Digest)
    requires |challenge| == 8
    requires AnswerBytes(key1, key2, challenge, md5).Success?
    ensures exists raw: seq<byte> ::
      |raw| == 16 && raw[..4] == KeyBytes(key1).value && raw[4..8] == KeyBytes(key2).value &&
      raw[8..] == challenge && AnswerBytes(key1, key2, challenge, md5).value == md5(raw)
  {
    var raw := KeyBytes(key1).value + KeyBytes(key2).value + challenge;
    assert raw[..4] == KeyBytes(key1).value;
    assert raw[4..8] == KeyBytes(key2).value;
    assert raw[8..] == challenge;
  }

  /** The answer fails exactly when one of the keys does, key1's error first. */
  lemma AnswerFailures(key1: Option<string>, key2: Option<string>, challenge: seq<byte>, md5: seq<byte> -> Digest)
    ensures AnswerBytes(key1, key2, challenge, md5).Success? <==> KeyBytes(key1).Success? && KeyBytes(key2).Success?
    ensures KeyBytes(key1).Failure? ==> AnswerBytes(key1, key2, challenge, md5) == Failure(KeyBytes(key1).error)
  {
  }

  /** The draft's example: the digest is taken over the sixteen bytes of the
      two keys' values and the challenge "^n:ds[4U". */
  lemma ExampleAnswerInput(key1: string, key2: string, md5: seq<byte> -> Digest)
    requires IsExampleKey1(key1) && IsExampleKey2(key2)
    ensures AnswerBytes(Some(key1), Some(key2), [94, 110, 58, 100, 115, 91, 52, 85], md5) ==
      Success(md5([49, 110, 65, 19, 15, 126, 214, 60, 94, 110, 58, 100, 115, 91, 52, 85]))
  {
    ExampleKey1(key1);
    ExampleKey2(key2);
    ExampleRawAnswer();
  }

  /** The sixteen digested bytes of the draft's example, laid end to end. */
  lemma ExampleRawAnswer()
    ensures [49, 110, 65, 19] + [15, 126, 214, 60] + [94, 110, 58, 100, 115, 91, 52, 85]
         == [49, 110, 65, 19, 15, 126, 214, 60, 94, 110, 58, 100, 115, 91, 52, 85]
  {
  }

  // ---------------------------------------------------------------------
  // ParseClientHandshake: challenge split and header dispatch
  // ---------------------------------------------------------------------

  /** The parsed client handshake; None stands for a field the source leaves null. */
  datatype ClientHandshake = ClientHandshake(
    resourcePath: string,
    challenge: seq<byte>,
    key1: Option<string>,
    key2: Option<string>,
    subProtocol: Option<string>,
    origin: Option<string>,
    host: Option<string>,
    cookies: Option<string>,
    additionalFields: Option<map<string, string>>)

  /** What the request regular expression captured from the header text. */
  datatype HeadMatch = HeadMatch(path: string, fields: seq<(string, string)>)

  /** The field a header name is stored in. */
  datatype Slot = Key1Slot | Key2Slot | SubProtocolSlot | OriginSlot | HostSlot | CookiesSlot | Additional

  /** Lower-casing of one character, ASCII letters only. */
  function LowerChar(c: char): (l: char)
  {
    if 'A' <= c <= 'Z' then (c as int + 32) as char else c
  }

  /** Lower-casing of a name, character by character. */
  function Lower(s: string): (r: string)
    ensures |r| == |s|
    ensures forall i :: 0 <= i < |s| ==> r[i] == LowerChar(s[i])
  {
    if s == [] then [] else [LowerChar(s[0])] + Lower(s[1..])
  }

  /** The switch on name.ToLower(). */
  function Classify(name: string): (slot: Slot)
  {
    var n := Lower(name);
    if n == "sec-websocket-key1" then Key1Slot
    else if n == "sec-websocket-key2" then Key2Slot
    else if n == "sec-websocket-protocol" then SubProtocolSlot
    else if n == "origin" then OriginSlot
    else if n == "host" then HostSlot
    else if n == "cookie" then CookiesSlot
    else Additional
  }

  /** The value held in a named slot. */
  function Get(hs: ClientHandshake, s: Slot): (v: Option<string>)
    requires s != Additional
  {
    match s
    case Key1Slot => hs.key1
    case Key2Slot => hs.key2
    case SubProtocolSlot => hs.subProtocol
    case OriginSlot => hs.origin
    case HostSlot => hs.host
    case CookiesSlot => hs.cookies
  }

  /** The handshake before any field is read: only path and challenge are set. */
  function Start(path: string, challenge: seq<byte>): (hs: ClientHandshake)
  {
    ClientHandshake(path, challenge, None, None, None, None, None, None, None)
  }

  /** One pass of the loop body: store the value under the slot its name selects. */
  function ApplyField(hs: ClientHandshake, name: string, value: string): (r: ClientHandshake)
  {
    match Classify(name)
    case Key1Slot => hs.(key1 := Some(value))
    case Key2Slot => hs.(key2 := Some(value))
    case SubProtocolSlot => hs.(subProtocol := Some(value))
    case OriginSlot => hs.(origin := Some(value))
    case HostSlot => hs.(host := Some(value))
    case CookiesSlot => hs.(cookies := Some(value))
    case Additional =>
      var extra := if hs.additionalFields.None? then map[] else hs.additionalFields.value;
      hs.(additionalFields := Some(extra[name := value]))
  }

  /** The loop over all captured fields, in capture order. */
  function ApplyFields(hs: ClientHandshake, fields: seq<(string, string)>): (r: ClientHandshake)
  {
    if fields == [] then hs
    else ApplyField(ApplyFields(hs, fields[..|fields| - 1]), fields[|fields| - 1].0, fields[|fields| - 1].1)
  }

  /** ParseClientHandshake: the last eight bytes are the challenge, the bytes
      before them are the header text, and every captured field is dispatched. */
  method ParseClientHandshake(byteShake: seq<byte>, scan: seq<byte> -> HeadMatch)
    returns (r: Result<ClientHandshake, HandshakeError>)
    ensures r.Failure? <==> |byteShake| < 8
    ensures r.Failure? ==> r.error == ShortHandshake
    ensures r.Success? ==>
      var text := byteShake[..|byteShake| - 8];
      r.value == ApplyFields(Start(scan(text).path, byteShake[|byteShake| - 8..]), scan(text).fields)
  {
    if |byteShake| < 8 {
      return Failure(ShortHandshake);
    }
    var challenge := byteShake[|byteShake| - 8..];
    var head := scan(byteShake[..|byteShake| - 8]);
    var handshake := Start(head.path, challenge);
    var i := 0;
    while i < |head.fields|
      invariant 0 <= i <= |head.fields|
      invariant handshake == ApplyFields(Start(head.path, challenge), head.fields[..i])
    {
      var (name, value) := head.fields[i];
      assert head.fields[..i + 1][..i] == head.fields[..i];
      handshake := ApplyField(handshake, name, value);
      i := i + 1;
    }
    assert head.fields[..i] == head.fields;
    r := Success(handshake);
  }

  /** Dispatch never touches the path or the challenge. */
  lemma {:induction false} ApplyFieldsKeeps(hs: ClientHandshake, fields: seq<(string, string)>)
    ensures ApplyFields(hs, fields).resourcePath == hs.resourcePath
    ensures ApplyFields(hs, fields).challenge == hs.challenge
  {
    if fields != [] {
      ApplyFieldsKeeps(hs, fields[..|fields| - 1]);
    }
  }

  /** One stored field changes its own slot and no other. */
  lemma ApplyFieldSlot(hs: ClientHandshake, name: string, value: string, s: Slot)
    requires s != Additional
    ensures Get(ApplyField(hs, name, value), s) == if Classify(name) == s then Some(value) else Get(hs, s)
  {
  }

  /** The last occurrence of a known name wins. */
  lemma {:induction false} LastOccurrenceWins(hs: ClientHandshake, fields: seq<(string, string)>, s: Slot, i: nat)
    requires s != Additional
    requires i < |fields| && Classify(fields[i].0) == s
    requires forall j :: i < j < |fields| ==> Classify(fields[j].0) != s
    ensures Get(ApplyFields(hs, fields), s) == Some(fields[i].1)
  {
    var n := |fields| - 1;
    var init := fields[..n];
    ApplyFieldSlot(ApplyFields(hs, init), fields[n].0, fields[n].1, s);
    if i < n {
      assert forall j :: i < j < |init| ==> init[j] == fields[j];
      LastOccurrenceWins(hs, init, s, i);
    }
  }

  /** A known name that never occurs leaves its slot as it was. */
  lemma {:induction false} AbsentNameKeeps(hs: ClientHandshake, fields: seq<(string, string)>, s: Slot)
    requires s != Additional
    requires forall j :: 0 <= j < |fields| ==> Classify(fields[j].0) != s
    ensures Get(ApplyFields(hs, fields), s) == Get(hs, s)
  {
    if fields != [] {
      var n := |fields| - 1;
      var init := fields[..n];
      ApplyFieldSlot(ApplyFields(hs, init), fields[n].0, fields[n].1, s);
      assert forall j :: 0 <= j < |init| ==> init[j] == fields[j];
      AbsentNameKeeps(hs, init, s);
    }
  }

  /** One field's effect on the dictionary of unknown names. */
  lemma ApplyFieldExtra(hs: ClientHandshake, name: string, value: string)
    ensures ApplyField(hs, name, value).additionalFields ==
      if Classify(name) != Additional then hs.additionalFields
      else if hs.additionalFields.None? then Some(map[name := value])
      else Some(hs.additionalFields.value[name := value])
  {
  }

  /** The dictionary of unknown names stays null until an unknown name occurs. */
  lemma {:induction false} AdditionalFieldsNull(hs: ClientHandshake, fields: seq<(string, string)>)
    requires hs.additionalFields.None?
    ensures ApplyFields(hs, fields).additionalFields.None? <==>
      forall i :: 0 <= i < |fields| ==> Classify(fields[i].0) != Additional
  {
    if fields != [] {
      var n := |fields| - 1;
      var init := fields[..n];
      AdditionalFieldsNull(hs, init);
      ApplyFieldExtra(ApplyFields(hs, init), fields[n].0, fields[n].1);
      assert forall i :: 0 <= i < n ==> init[i] == fields[i];
    }
  }

  /** Its keys are exactly the unknown names that occur, under their original spelling. */
  lemma {:induction false} AdditionalFieldsKeys(hs: ClientHandshake, fields: seq<(string, string)>, k: string)
    requires hs.additionalFields.None?
    ensures (ApplyFields(hs, fields).additionalFields.Some? && k in ApplyFields(hs, fields).additionalFields.value) <==>
      exists i :: 0 <= i < |fields| && fields[i].0 == k && Classify(k) == Additional
  {
    if fields != [] {
      var n := |fields| - 1;
      var init := fields[..n];
      AdditionalFieldsKeys(hs, init, k);
      ApplyFieldExtra(ApplyFields(hs, init), fields[n].0, fields[n].1);
      assert forall i :: 0 <= i < n ==> init[i] == fields[i];
    }
  }

  /** An unknown name holds the value of its last occurrence. */
  lemma {:induction false} AdditionalFieldsLastValue(hs: ClientHandshake, fields: seq<(string, string)>, i: nat)
    requires i < |fields| && Classify(fields[i].0) == Additional
    requires forall j :: i < j < |fields| ==> fields[j].0 != fields[i].0
    ensures ApplyFields(hs, fields).additionalFields.Some?
    ensures fields[i].0 in ApplyFields(hs, fields).additionalFields.value
    ensures ApplyFields(hs, fields).additionalFields.value[fields[i].0] == fields[i].1
  {
    var n := |fields| - 1;
    var init := fields[..n];
    var prev := ApplyFields(hs, init);
    assert ApplyFields(hs, fields) == ApplyField(prev, fields[n].0, fields[n].1);
    ApplyFieldExtra(prev, fields[n].0, fields[n].1);
    if i < n {
      assert init[i] == fields[i];
      assert forall j :: i < j < |init| ==> init[j] == fields[j];
      AdditionalFieldsLastValue(hs, init, i);
    }
  }

  /** Lower-casing twice is lower-casing once. */
  lemma {:induction false} LowerIdempotent(s: string)
    ensures Lower(Lower(s)) == Lower(s)
  {
    if s != [] {
      LowerIdempotent(s[1..]);
      assert Lower(s)[0] == LowerChar(s[0]) && Lower(s)[1..] == Lower(s[1..]);
    }
  }

  /** A name selects the same slot as its lower-case spelling: matching ignores case. */
  lemma ClassifyLower(name: string)
    ensures Classify(Lower(name)) == Classify(name)
  {
    LowerIdempotent(name);
  }

  /** Header names match whatever their letter case. */
  lemma ClassifyIgnoresCase()
    ensures Classify("HOST") == HostSlot && Classify("Host") == HostSlot
  {
    assert Lower("HOST") == "host";
    assert Lower("Host") == "host";
  }

  // ---------------------------------------------------------------------
  // GenerateResponseHandshake and BeginSendServerHandshake
  // ---------------------------------------------------------------------

  datatype ServerHandshake = ServerHandshake(
    location: string,
    origin: Option<string>,
    subProtocol: Option<string>,
    answerBytes: seq<byte>)

  /** GenerateResponseHandshake: location from host and path, origin and
      subprotocol copied, the answer from the keys and the challenge. */
  method GenerateResponseHandshake(hs: ClientHandshake, md5: seq<byte> -> Digest, littleEndian: bool)
    returns (r: Result<ServerHandshake, HandshakeError>)
    requires |hs.challenge| == 8
    ensures r.Failure? <==> AnswerBytes(hs.key1, hs.key2, hs.challenge, md5).Failure?
    ensures r.Failure? ==> r.error == AnswerBytes(hs.key1, hs.key2, hs.challenge, md5).error
    ensures r.Success? ==>
      && r.value.location == "ws://" + OrEmpty(hs.host) + hs.resourcePath
      && r.value.origin == hs.origin
      && r.value.subProtocol == hs.subProtocol
      && r.value.answerBytes == AnswerBytes(hs.key1, hs.key2, hs.challenge, md5).value
  {
    var location := "ws://" + OrEmpty(hs.host) + hs.resourcePath;
    var answer := CalculateAnswerBytes(hs.key1, hs.key2, hs.challenge, md5, littleEndian);
    if answer.Failure? {
      return Failure(answer.error);
    }
    r := Success(ServerHandshake(location, hs.origin, hs.subProtocol, answer.value));
  }

  /** Array.Resize: a fresh array of the new length starting with the old
      contents, the new elements zero. */
  method Resize(a: array<byte>, n: nat) returns (b: array<byte>)
    requires a.Length <= n
    ensures fresh(b) && b.Length == n && b[..a.Length] == a[..]
    ensures forall i :: a.Length <= i < n ==> b[i] == 0
  {
    b := new byte[n](_ => 0);
    ghost var zeros := b[..];
    CopyInto(a[..], b, 0);
    assert b[..] == a[..] + zeros[a.Length..];
    forall i | a.Length <= i < n
      ensures b[i] == 0
    {
      assert b[i] == b[..][i] == zeros[i];
    }
  }

  /** The bytes BeginSendServerHandshake sends: the UTF-8 response text with
      the answer bytes appended directly after it. */
  method WireResponse(responseText: string, answerBytes: seq<byte>) returns (byteResponse: array<byte>)
    ensures fresh(byteResponse)
    ensures byteResponse.Length == |Utf8.Encode(responseText)| + |answerBytes|
    ensures byteResponse[..] == Utf8.Encode(responseText) + answerBytes
  {
    var text := Utf8.Encode(responseText);
    var encoded := new byte[|text|];
    CopyInto(text, encoded, 0);
    var byteResponseLength := encoded.Length;
    byteResponse := Resize(encoded, byteResponseLength + |answerBytes|);
    CopyInto(answerBytes, byteResponse, byteResponseLength);
  }
}
