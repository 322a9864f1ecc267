/**
 UTF-8, as `Buffer.from(str)` produces it from the scalar values of a string
 (RFC 3629, section 3), and a strict decoder that accepts exactly the
 shortest-form encodings of scalar values.
 */
module Utf8 {
  import opened Wrappers
  import opened Bytes

  predicate IsContinuation(b: Byte) { 0x80 <= b < 0xC0 }

  /** The two-byte form of a value in [0x80, 0x800). */
  function TwoBytes(n: int): (r: seq<Byte>)
    requires 0x80 <= n < 0x800
    ensures |r| == 2 && 0xC2 <= r[0] < 0xE0 && IsContinuation(r[1])
  {
    [0xC0 + n / 0x40, 0x80 + n % 0x40]
  }

  /** The three-byte form of a value in [0x800, 0x10000). */
  function ThreeBytes(n: int): (r: seq<Byte>)
    requires 0x800 <= n < 0x1_0000
    ensures |r| == 3 && 0xE0 <= r[0] < 0xF0 && IsContinuation(r[1]) && IsContinuation(r[2])
  {
    [0xE0 + n / 0x1000, 0x80 + n / 0x40 % 0x40, 0x80 + n % 0x40]
  }

  /** The four-byte form of a value in [0x10000, 0x110000). */
  function FourBytes(n: int): (r: seq<Byte>)
    requires 0x1_0000 <= n < 0x11_0000
    ensures |r| == 4 && 0xF0 <= r[0] < 0xF5
    ensures IsContinuation(r[1]) && IsContinuation(r[2]) && IsContinuation(r[3])
  {
    [0xF0 + n / 0x4_0000, 0x80 + n / 0x1000 % 0x40, 0x80 + n / 0x40 % 0x40, 0x80 + n % 0x40]
  }

  /** The UTF-8 bytes of one scalar value: one to four bytes by magnitude. */
  function EncodeChar(c: char): (r: seq<Byte>)
    ensures 1 <= |r| <= 4
    ensures |r| == 1 <==> (c as int) < 0x80
    ensures |r| == 1 ==> r[0] == c as int
  {
    var n := c as int;
    if n < 0x80 then [n]
    else if n < 0x800 then TwoBytes(n)
    else if n < 0x1_0000 then ThreeBytes(n)
    else FourBytes(n)
  }

  function Encode(s: string): (r: seq<Byte>)
    ensures |s| <= |r| <= 4 * |s|
  {
    if |s| == 0 then [] else EncodeChar(s[0]) + Encode(s[1..])
  }

  /** One decoded character and the number of bytes it occupied. */
  datatype Decoded = Decoded(c: char, size: nat)

  /** A two-byte sequence: lead byte 0xC2 to 0xDF, one continuation byte. */
  function DecodeTwoBytes(b: seq<Byte>): (r: Option<Decoded>)
    requires |b| > 0 && 0xC2 <= b[0] < 0xE0
    ensures r.Some? ==> r.value.size == 2 <= |b| && |EncodeChar(r.value.c)| == 2
  {
    if |b| < 2 || !IsContinuation(b[1]) then None
    else Some(Decoded(((b[0] as int - 0xC0) * 0x40 + (b[1] as int - 0x80)) as char, 2))
  }

  /** A three-byte sequence, rejected when overlong or a surrogate. */
  function DecodeThreeBytes(b: seq<Byte>): (r: Option<Decoded>)
    requires |b| > 0 && 0xE0 <= b[0] < 0xF0
    ensures r.Some? ==> r.value.size == 3 <= |b| && |EncodeChar(r.value.c)| == 3
  {
    if |b| < 3 || !IsContinuation(b[1]) || !IsContinuation(b[2]) then None
    else
      var n := (b[0] as int - 0xE0) * 0x1000 + (b[1] as int - 0x80) * 0x40 + (b[2] as int - 0x80);
      if n < 0x800 || 0xD800 <= n < 0xE000 then None else Some(Decoded(n as char, 3))
  }

  /** A four-byte sequence, rejected when overlong or beyond U+10FFFF. */
  function DecodeFourBytes(b: seq<Byte>): (r: Option<Decoded>)
    requires |b| > 0 && 0xF0 <= b[0] < 0xF5
    ensures r.Some? ==> r.value.size == 4 <= |b| && |EncodeChar(r.value.c)| == 4
  {
    if |b| < 4 || !IsContinuation(b[1]) || !IsContinuation(b[2]) || !IsContinuation(b[3]) then None
    else
      var n := (b[0] as int - 0xF0) * 0x4_0000 + (b[1] as int - 0x80) * 0x1000 + (b[2] as int - 0x80) * 0x40 + (b[3] as int - 0x80);
      if n < 0x1_0000 || 0x11_0000 <= n then None else Some(Decoded(n as char, 4))
  }

  /** Decodes the character at the front of `b`, rejecting stray continuation
      bytes, truncated sequences, overlong forms, surrogates and values beyond
      U+10FFFF. */
  function DecodeFirst(b: seq<Byte>): (r: Option<Decoded>)
    ensures r.Some? ==> 1 <= r.value.size <= |b| && r.value.size == |EncodeChar(r.value.c)|
  {
    if |b| == 0 then None
    else if b[0] < 0x80 then Some(Decoded(b[0] as char, 1))
    else if b[0] < 0xC2 then None
    else if b[0] < 0xE0 then DecodeTwoBytes(b)
    else if b[0] < 0xF0 then DecodeThreeBytes(b)
    else if b[0] < 0xF5 then DecodeFourBytes(b)
    else None
  }

  function Decode(b: seq<Byte>): (r: Option<string>)
    decreases |b|
  {
    if |b| == 0 then Some([])
    else match DecodeFirst(b)
      case None => None
      case Some(d) =>
        match Decode(b[d.size..])
        case None => None
        case Some(rest) => Some([d.c] + rest)
  }

  lemma DecodeTwo(n: int, rest: seq<Byte>)
    requires 0x80 <= n < 0x800
    ensures DecodeFirst(TwoBytes(n) + rest) == Some(Decoded(n as char, 2))
  {
    var b := TwoBytes(n) + rest;
    var b0: int, b1: int := b[0], b[1];
    assert (b0 - 0xC0) * 0x40 + (b1 - 0x80) == n;
  }

  lemma DecodeThree(n: int, rest: seq<Byte>)
    requires 0x800 <= n < 0x1_0000 && !(0xD800 <= n < 0xE000)
    ensures DecodeFirst(ThreeBytes(n) + rest) == Some(Decoded(n as char, 3))
  {
    var b := ThreeBytes(n) + rest;
    var b0: int, b1: int, b2: int := b[0], b[1], b[2];
    var hi := n / 0x40;
    assert n == hi * 0x40 + n % 0x40;
    assert hi == n / 0x1000 * 0x40 + hi % 0x40;
    assert (b0 - 0xE0) * 0x1000 + (b1 - 0x80) * 0x40 + (b2 - 0x80) == n;
  }

  lemma FourDigits(n: int)
    requires 0x1_0000 <= n < 0x11_0000
    ensures (n / 0x4_0000) * 0x4_0000 + (n / 0x1000 % 0x40) * 0x1000 + (n / 0x40 % 0x40) * 0x40 + n % 0x40 == n
  {
    var hi, top := n / 0x40, n / 0x1000;
    assert n == hi * 0x40 + n % 0x40;
    assert hi == top * 0x40 + hi % 0x40;
    assert top == n / 0x4_0000 * 0x40 + top % 0x40;
  }

  lemma DecodeFour(n: int, rest: seq<Byte>)
    requires 0x1_0000 <= n < 0x11_0000
    ensures DecodeFirst(FourBytes(n) + rest) == Some(Decoded(n as char, 4))
  {
    FourDigits(n);
    var b := FourBytes(n) + rest;
    var b0: int, b1: int, b2: int, b3: int := b[0], b[1], b[2], b[3];
    assert (b0 - 0xF0) * 0x4_0000 + (b1 - 0x80) * 0x1000 + (b2 - 0x80) * 0x40 + (b3 - 0x80) == n;
  }

  lemma DecodeEncodedChar(c: char, rest: seq<Byte>)
    ensures DecodeFirst(EncodeChar(c) + rest) == Some(Decoded(c, |EncodeChar(c)|))
  {
    var n := c as int;
    if n < 0x80 {
    } else if n < 0x800 {
      DecodeTwo(n, rest);
    } else if n < 0x1_0000 {
      DecodeThree(n, rest);
    } else {
      DecodeFour(n, rest);
    }
  }

  /** Decoding the UTF-8 encoding of a string gives the string back. */
  lemma {:induction false} DecodeEncode(s: string)
    ensures Decode(Encode(s)) == Some(s)
  {
    if |s| > 0 {
      var e := EncodeChar(s[0]);
      DecodeEncodedChar(s[0], Encode(s[1..]));
      assert (e + Encode(s[1..]))[|e|..] == Encode(s[1..]);
      DecodeEncode(s[1..]);
      assert s == [s[0]] + s[1..];
    }
  }

  lemma Digits2(n: int, x: int, y: int)
    requires 0 <= y < 0x40 && n == x * 0x40 + y
    ensures n / 0x40 == x && n % 0x40 == y
  {
  }

  lemma EncodeTwoDecoded(b: seq<Byte>)
    requires |b| > 0 && 0xC2 <= b[0] < 0xE0 && DecodeTwoBytes(b).Some?
    ensures EncodeChar(DecodeTwoBytes(b).value.c) == b[..2]
  {
    var n := DecodeTwoBytes(b).value.c as int;
    var b0: int, b1: int := b[0], b[1];
    Digits2(n, b0 - 0xC0, b1 - 0x80);
    assert TwoBytes(n) == b[..2];
  }

  lemma EncodeThreeDecoded(b: seq<Byte>)
    requires |b| > 0 && 0xE0 <= b[0] < 0xF0 && DecodeThreeBytes(b).Some?
    ensures EncodeChar(DecodeThreeBytes(b).value.c) == b[..3]
  {
    var n := DecodeThreeBytes(b).value.c as int;
    var b0: int, b1: int, b2: int := b[0], b[1], b[2];
    var hi := (b0 - 0xE0) * 0x40 + (b1 - 0x80);
    Digits2(n, hi, b2 - 0x80);
    Digits2(hi, b0 - 0xE0, b1 - 0x80);
    assert n / 0x1000 == hi / 0x40;
    assert ThreeBytes(n) == b[..3];
  }

  lemma EncodeFourDecoded(b: seq<Byte>)
    requires |b| > 0 && 0xF0 <= b[0] < 0xF5 && DecodeFourBytes(b).Some?
    ensures EncodeChar(DecodeFourBytes(b).value.c) == b[..4]
  {
    var n := DecodeFourBytes(b).value.c as int;
    var b0: int, b1: int, b2: int, b3: int := b[0], b[1], b[2], b[3];
    var top := (b0 - 0xF0) * 0x40 + (b1 - 0x80);
    var hi := top * 0x40 + (b2 - 0x80);
    Digits2(n, hi, b3 - 0x80);
    Digits2(hi, top, b2 - 0x80);
    Digits2(top, b0 - 0xF0, b1 - 0x80);
    assert n / 0x1000 == hi / 0x40;
    assert n / 0x4_0000 == top / 0x40;
    assert FourBytes(n) == b[..4];
  }

  /** Re-encoding a decoded character gives back the bytes it was read from. */
  lemma EncodeDecodedChar(b: seq<Byte>)
    requires DecodeFirst(b).Some?
    ensures EncodeChar(DecodeFirst(b).value.c) == b[..DecodeFirst(b).value.size]
  {
    if b[0] < 0x80 {
    } else if b[0] < 0xE0 {
      EncodeTwoDecoded(b);
    } else if b[0] < 0xF0 {
      EncodeThreeDecoded(b);
    } else {
      EncodeFourDecoded(b);
    }
  }

  /** One step of a successful decode: a first character, then the rest. */
  lemma DecodeStep(b: seq<Byte>, s: string) returns (d: Decoded, rest: string)
    requires |b| > 0 && Decode(b) == Some(s)
    ensures DecodeFirst(b) == Some(d)
    ensures Decode(b[d.size..]) == Some(rest)
    ensures s == [d.c] + rest
  {
    d := DecodeFirst(b).value;
    rest := Decode(b[d.size..]).value;
  }

  lemma EncodeCons(c: char, rest: string)
    ensures Encode([c] + rest) == EncodeChar(c) + Encode(rest)
  {
    assert ([c] + rest)[1..] == rest;
  }

  /** The decoder is strict: whatever it accepts is the encoding of what it
      returns, so no two byte strings decode to the same text. */
  lemma {:induction false} EncodeDecode(b: seq<Byte>, s: string)
    requires Decode(b) == Some(s)
    ensures Encode(s) == b
    decreases |b|
  {
    if |b| > 0 {
      var d, rest := DecodeStep(b, s);
      var tail := b[d.size..];
      calc {
        Encode(s);
        { EncodeCons(d.c, rest); }
        EncodeChar(d.c) + Encode(rest);
        { EncodeDecodedChar(b); }
        b[..d.size] + Encode(rest);
        { EncodeDecode(tail, rest); }
        b[..d.size] + tail;
        b;
      }
    }
  }

  /** A string of ASCII characters is encoded one byte per character, each byte
      the character's code. */
  lemma {:induction false} EncodeAscii(s: string)
    requires forall i :: 0 <= i < |s| ==> (s[i] as int) < 0x80
    ensures |Encode(s)| == |s|
    ensures forall i :: 0 <= i < |s| ==> Encode(s)[i] == s[i] as int
  {
    if |s| > 0 {
      EncodeAscii(s[1..]);
    }
  }
}
