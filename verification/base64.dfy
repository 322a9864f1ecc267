/**
 The base 64 encoding of section 4 of RFC 4648 (alphabet `A`-`Z`, `a`-`z`,
 `0`-`9`, `+`, `/`, padding `=`), as `Buffer.prototype.toString('base64')`
 produces it, and a strict decoder that accepts exactly the canonical
 encodings (section 3.5 of RFC 4648: padded, with zero pad bits).
 */
module Base64 {
  import opened Wrappers
  import opened Bytes

  /** The value of one base 64 symbol: six bits. */
  type Sextet = i: int | 0 <= i < 0x40

  const Pad: char := '='

  /** The alphabet symbol of a six-bit value. */
  function Symbol(i: Sextet): (c: char)
    ensures ValueOf(c) == Some(i)
    ensures c != Pad && (c as int) < 0x80
  {
    if i < 26 then ('A' as int + i) as char
    else if i < 52 then ('a' as int + (i - 26)) as char
    else if i < 62 then ('0' as int + (i - 52)) as char
    else if i == 62 then '+'
    else '/'
  }

  /** The value of an alphabet symbol; None for any other character,
      padding included. */
  function ValueOf(c: char): (r: Option<Sextet>)
  {
    if 'A' <= c <= 'Z' then Some(c as int - 'A' as int)
    else if 'a' <= c <= 'z' then Some(c as int - 'a' as int + 26)
    else if '0' <= c <= '9' then Some(c as int - '0' as int + 52)
    else if c == '+' then Some(62)
    else if c == '/' then Some(63)
    else None
  }

  predicate InAlphabet(c: char) { ValueOf(c).Some? }

  /** ValueOf undoes Symbol (stated on Symbol), and Symbol undoes ValueOf:
      the two are inverse bijections between six-bit values and the 64
      alphabet characters. */
  lemma ValueSymbol(c: char)
    requires InAlphabet(c)
    ensures Symbol(ValueOf(c).value) == c
  {
  }

  /** Three bytes as four symbols. */
  function Quad(b0: Byte, b1: Byte, b2: Byte): (q: string)
    ensures |q| == 4 && forall i :: 0 <= i < 4 ==> InAlphabet(q[i])
  {
    [Symbol(b0 / 4), Symbol(b0 % 4 * 16 + b1 / 16), Symbol(b1 % 16 * 4 + b2 / 64), Symbol(b2 % 64)]
  }

  /** Two trailing bytes as three symbols and one pad; the two spare bits are zero. */
  function Tail2(b0: Byte, b1: Byte): (q: string)
    ensures |q| == 4 && InAlphabet(q[0]) && InAlphabet(q[1]) && InAlphabet(q[2]) && q[3] == Pad
  {
    [Symbol(b0 / 4), Symbol(b0 % 4 * 16 + b1 / 16), Symbol(b1 % 16 * 4), Pad]
  }

  /** One trailing byte as two symbols and two pads; the four spare bits are zero. */
  function Tail1(b0: Byte): (q: string)
    ensures |q| == 4 && InAlphabet(q[0]) && InAlphabet(q[1]) && q[2] == Pad && q[3] == Pad
  {
    [Symbol(b0 / 4), Symbol(b0 % 4 * 16), Pad, Pad]
  }

  function Encode(b: seq<Byte>): (s: string)
    ensures |s| == 4 * ((|b| + 2) / 3)
  {
    if |b| >= 3 then
      assert (|b| - 3 + 2) / 3 + 1 == (|b| + 2) / 3;
      Quad(b[0], b[1], b[2]) + Encode(b[3..])
    else if |b| == 2 then Tail2(b[0], b[1])
    else if |b| == 1 then Tail1(b[0])
    else []
  }

  /** The three bytes a group of four sextets `c0 c1 c2 c3` carries: the first is
      all six bits of `c0` and the top two of `c1`, */
  function High6(c0: Sextet, c1: Sextet): Byte { (c0 as int) * 4 + (c1 as int) / 16 }

  /** the second the low four bits of `c1` and the top four of `c2`, */
  function Mid4(c1: Sextet, c2: Sextet): Byte { (c1 as int) % 16 * 16 + (c2 as int) / 4 }

  /** and the third the low two bits of `c2` and all six of `c3`. */
  function Low2(c2: Sextet, c3: Sextet): Byte { (c2 as int) % 4 * 64 + (c3 as int) }

  /** Four alphabet symbols as three bytes. */
  function DecodeQuad(q: string): (r: Option<seq<Byte>>)
    requires |q| == 4
  {
    match (ValueOf(q[0]), ValueOf(q[1]), ValueOf(q[2]), ValueOf(q[3]))
    case (Some(c0), Some(c1), Some(c2), Some(c3)) =>
      Some([High6(c0, c1), Mid4(c1, c2), Low2(c2, c3)])
    case _ => None
  }

  /** The final group: no, one or two pads; the bits the pads leave over
      must be zero. */
  function DecodeLast(q: string): (r: Option<seq<Byte>>)
    requires |q| == 4
  {
    if q[3] != Pad then DecodeQuad(q)
    else if q[2] != Pad then
      match (ValueOf(q[0]), ValueOf(q[1]), ValueOf(q[2]))
      case (Some(c0), Some(c1), Some(c2)) =>
        if c2 % 4 != 0 then None else Some([High6(c0, c1), Mid4(c1, c2)])
      case _ => None
    else
      match (ValueOf(q[0]), ValueOf(q[1]))
      case (Some(c0), Some(c1)) =>
        if c1 % 16 != 0 then None else Some([High6(c0, c1)])
      case _ => None
  }

  function Decode(s: string): (r: Option<seq<Byte>>)
    decreases |s|
  {
    if |s| == 0 then Some([])
    else if |s| < 4 then None
    else if |s| == 4 then DecodeLast(s)
    else
      match DecodeQuad(s[..4])
      case None => None
      case Some(head) =>
        match Decode(s[4..])
        case None => None
        case Some(tail) => Some(head + tail)
  }

  /** The shape of an encoding: a multiple of four characters, all from the
      alphabet except for at most two trailing pads. */
  predicate WellPadded(s: string, pads: nat) {
    && |s| % 4 == 0
    && pads <= 2
    && pads <= |s|
    && (forall i :: 0 <= i < |s| - pads ==> InAlphabet(s[i]))
    && (forall i :: |s| - pads <= i < |s| ==> s[i] == Pad)
  }

  /** A full group in front of a well-padded string keeps it well padded. */
  lemma WellPaddedPrepend(q: string, t: string, pads: nat)
    requires |q| == 4 && forall i :: 0 <= i < 4 ==> InAlphabet(q[i])
    requires WellPadded(t, pads)
    ensures WellPadded(q + t, pads)
  {
    var s := q + t;
    forall i | 0 <= i < |s| - pads
      ensures InAlphabet(s[i])
    {
      if i >= 4 {
        assert s[i] == t[i - 4];
      }
    }
    forall i | |s| - pads <= i < |s|
      ensures s[i] == Pad
    {
      assert s[i] == t[i - 4];
    }
  }

  lemma Tail2WellPadded(b0: Byte, b1: Byte)
    ensures WellPadded(Tail2(b0, b1), 1)
  {
    var q := Tail2(b0, b1);
    forall i | 0 <= i < 3
      ensures InAlphabet(q[i])
    {
    }
  }

  lemma Tail1WellPadded(b0: Byte)
    ensures WellPadded(Tail1(b0), 2)
  {
    var q := Tail1(b0);
    forall i | 0 <= i < 2
      ensures InAlphabet(q[i])
    {
    }
  }

  /** The number of pad characters after `n` bytes. */
  function PadsFor(n: nat): (p: nat)
    ensures p <= 2
  {
    if n % 3 == 0 then 0 else 3 - n % 3
  }

  lemma {:induction false} EncodeWellPadded(b: seq<Byte>)
    ensures WellPadded(Encode(b), PadsFor(|b|))
  {
    if |b| >= 3 {
      var q, t := Quad(b[0], b[1], b[2]), Encode(b[3..]);
      var pads := PadsFor(|b|);
      assert Encode(b) == q + t;
      assert WellPadded(t, pads) by {
        EncodeWellPadded(b[3..]);
        assert PadsFor(|b| - 3) == pads;
      }
      WellPaddedPrepend(q, t, pads);
    } else if |b| == 2 {
      assert Encode(b) == Tail2(b[0], b[1]);
      Tail2WellPadded(b[0], b[1]);
    } else if |b| == 1 {
      assert Encode(b) == Tail1(b[0]);
      Tail1WellPadded(b[0]);
    }
  }

  lemma Split4(x: int, y: int)
    requires 0 <= y < 4
    ensures (x * 4 + y) / 4 == x && (x * 4 + y) % 4 == y
  {
  }

  lemma Split16(x: int, y: int)
    requires 0 <= y < 16
    ensures (x * 16 + y) / 16 == x && (x * 16 + y) % 16 == y
  {
  }

  lemma Split64(x: int, y: int)
    requires 0 <= y < 64
    ensures (x * 64 + y) / 64 == x && (x * 64 + y) % 64 == y
  {
  }

  /** The four sextets of three bytes reassemble into those bytes. */
  lemma SextetsOfBytes(b0: Byte, b1: Byte, b2: Byte)
    ensures High6(b0 / 4, b0 % 4 * 16 + b1 / 16) == b0
    ensures Mid4(b0 % 4 * 16 + b1 / 16, b1 % 16 * 4 + b2 / 64) == b1
    ensures Low2(b1 % 16 * 4 + b2 / 64, b2 % 64) == b2
  {
    Split16(b0 % 4, b1 / 16);
    Split4(b1 % 16, b2 / 64);
  }

  lemma QuadRoundTrip(b0: Byte, b1: Byte, b2: Byte)
    ensures DecodeQuad(Quad(b0, b1, b2)) == Some([b0, b1, b2])
  {
    var c0, c1, c2, c3 := b0 / 4, b0 % 4 * 16 + b1 / 16, b1 % 16 * 4 + b2 / 64, b2 % 64;
    var q := Quad(b0, b1, b2);
    assert q == [Symbol(c0), Symbol(c1), Symbol(c2), Symbol(c3)];
    SextetsOfBytes(b0, b1, b2);
    assert DecodeQuad(q) == Some([High6(c0, c1), Mid4(c1, c2), Low2(c2, c3)]);
  }

  lemma Tail2RoundTrip(b0: Byte, b1: Byte)
    ensures DecodeLast(Tail2(b0, b1)) == Some([b0, b1])
  {
    var c0, c1, c2 := b0 / 4, b0 % 4 * 16 + b1 / 16, b1 % 16 * 4;
    var q := Tail2(b0, b1);
    assert q == [Symbol(c0), Symbol(c1), Symbol(c2), Pad];
    Split16(b0 % 4, b1 / 16);
    Split4(b1 % 16, 0);
    assert High6(c0, c1) == b0;
    assert Mid4(c1, c2) == b1;
  }

  lemma Tail1RoundTrip(b0: Byte)
    ensures DecodeLast(Tail1(b0)) == Some([b0])
  {
    var c0, c1 := b0 / 4, b0 % 4 * 16;
    var q := Tail1(b0);
    assert q == [Symbol(c0), Symbol(c1), Pad, Pad];
    Split16(b0 % 4, 0);
    assert High6(c0, c1) == b0;
  }

  /** Decoding an encoding gives back exactly the bytes that were encoded. */
  lemma {:induction false} DecodeEncode(b: seq<Byte>)
    ensures Decode(Encode(b)) == Some(b)
  {
    if |b| > 3 {
      var q := Quad(b[0], b[1], b[2]);
      var s := Encode(b);
      assert s == q + Encode(b[3..]);
      assert s[..4] == q && s[4..] == Encode(b[3..]);
      assert DecodeQuad(q) == Some([b[0], b[1], b[2]]) by { QuadRoundTrip(b[0], b[1], b[2]); }
      assert Decode(Encode(b[3..])) == Some(b[3..]) by { DecodeEncode(b[3..]); }
      assert b == [b[0], b[1], b[2]] + b[3..];
    } else if |b| == 3 {
      QuadRoundTrip(b[0], b[1], b[2]);
      assert Encode(b) == Quad(b[0], b[1], b[2]) + Encode(b[3..]);
      assert b == [b[0], b[1], b[2]];
    } else if |b| == 2 {
      Tail2RoundTrip(b[0], b[1]);
      assert b == [b[0], b[1]];
    } else if |b| == 1 {
      Tail1RoundTrip(b[0]);
      assert b == [b[0]];
    }
  }

  /** Splitting the three bytes of four sextets gives the sextets back. */
  lemma SextetsRoundTrip(c0: Sextet, c1: Sextet, c2: Sextet, c3: Sextet)
    ensures var b0, b1, b2 := High6(c0, c1), Mid4(c1, c2), Low2(c2, c3);
      b0 / 4 == c0 && b0 % 4 * 16 + b1 / 16 == c1 && b1 % 16 * 4 + b2 / 64 == c2 && b2 % 64 == c3
  {
    Split4(c0, c1 / 16);
    Split16(c1 % 16, c2 / 4);
    Split64(c2 % 4, c3);
  }

  lemma QuadOfDecoded(q: string)
    requires |q| == 4 && DecodeQuad(q).Some?
    ensures var b := DecodeQuad(q).value; Quad(b[0], b[1], b[2]) == q
  {
    var c0, c1, c2, c3 := ValueOf(q[0]).value, ValueOf(q[1]).value, ValueOf(q[2]).value, ValueOf(q[3]).value;
    assert DecodeQuad(q).value == [High6(c0, c1), Mid4(c1, c2), Low2(c2, c3)];
    assert q == [Symbol(c0), Symbol(c1), Symbol(c2), Symbol(c3)] by {
      ValueSymbol(q[0]);
      ValueSymbol(q[1]);
      ValueSymbol(q[2]);
      ValueSymbol(q[3]);
    }
    SextetsRoundTrip(c0, c1, c2, c3);
  }

  lemma LastOfDecoded(q: string)
    requires |q| == 4 && DecodeLast(q).Some?
    ensures Encode(DecodeLast(q).value) == q
  {
    var b := DecodeLast(q).value;
    if q[3] != Pad {
      QuadOfDecoded(q);
      assert Encode(b) == Quad(b[0], b[1], b[2]) + Encode(b[3..]);
    } else if q[2] != Pad {
      var c0, c1, c2 := ValueOf(q[0]).value, ValueOf(q[1]).value, ValueOf(q[2]).value;
      ValueSymbol(q[0]);
      ValueSymbol(q[1]);
      ValueSymbol(q[2]);
      var b0, b1 := High6(c0, c1), Mid4(c1, c2);
      Split4(c0, c1 / 16);
      Split16(c1 % 16, c2 / 4);
      assert b0 / 4 == c0 && b0 % 4 * 16 + b1 / 16 == c1;
      assert b1 % 16 * 4 == c2;
      assert q == [q[0], q[1], q[2], q[3]];
    } else {
      var c0, c1 := ValueOf(q[0]).value, ValueOf(q[1]).value;
      ValueSymbol(q[0]);
      ValueSymbol(q[1]);
      var b0 := High6(c0, c1);
      Split4(c0, c1 / 16);
      assert b0 / 4 == c0 && b0 % 4 * 16 == c1;
      assert q == [q[0], q[1], q[2], q[3]];
    }
  }

  /** The decoder is strict: whatever it accepts is the encoding of what it
      returns, so every byte string has exactly one encoding. */
  lemma {:induction false} EncodeDecode(s: string, b: seq<Byte>)
    requires Decode(s) == Some(b)
    ensures Encode(b) == s
    decreases |s|
  {
    if |s| == 4 {
      LastOfDecoded(s);
    } else if |s| > 4 {
      var head := DecodeQuad(s[..4]).value;
      var tail := Decode(s[4..]).value;
      assert b == head + tail;
      QuadOfDecoded(s[..4]);
      EncodeDecode(s[4..], tail);
      assert b[3..] == tail;
      assert s == s[..4] + s[4..];
    }
  }
}
