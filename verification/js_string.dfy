/**
 JavaScript strings are sequences of UTF-16 code units: `length`, `substring`
 and single-character regular expressions all work unit by unit. Dafny strings
 are sequences of Unicode scalar values. This module relates the two: `Lit` is
 the UTF-16 form of a Dafny string (how a string literal in the program is
 stored), and `Chars` reads a JavaScript string back as scalar values the way
 `Buffer.from(str)` does before UTF-8 encoding, turning every unpaired
 surrogate into U+FFFD.
 */
module JsString {

  type CodeUnit = u: int | 0 <= u < 0x1_0000

  type JsStr = seq<CodeUnit>

  predicate IsHighSurrogate(u: int) { 0xD800 <= u < 0xDC00 }

  predicate IsLowSurrogate(u: int) { 0xDC00 <= u < 0xE000 }

  predicate IsSurrogate(u: int) { 0xD800 <= u < 0xE000 }

  const Replacement: char := '\U{FFFD}'

  /** The UTF-16 form of one scalar value: one unit in the basic plane,
      a surrogate pair above it. */
  function EncodeChar(c: char): (r: JsStr)
    ensures |r| == 1 <==> (c as int) < 0x1_0000
    ensures |r| == 1 ==> r[0] == c as int && !IsSurrogate(r[0])
    ensures |r| != 1 ==> |r| == 2 && IsHighSurrogate(r[0]) && IsLowSurrogate(r[1])
  {
    var n := c as int;
    if n < 0x1_0000 then [n]
    else [0xD800 + (n - 0x1_0000) / 0x400, 0xDC00 + (n - 0x1_0000) % 0x400]
  }

  /** The supplementary character a surrogate pair stands for. */
  function Pair(hi: int, lo: int): (c: char)
    requires IsHighSurrogate(hi) && IsLowSurrogate(lo)
    ensures 0x1_0000 <= c as int < 0x11_0000
  {
    (0x1_0000 + (hi - 0xD800) * 0x400 + (lo - 0xDC00)) as char
  }

  /** The JavaScript string holding the Dafny string `s`. */
  function Lit(s: string): (r: JsStr)
  {
    if |s| == 0 then [] else EncodeChar(s[0]) + Lit(s[1..])
  }

  /** The JavaScript string holding an ASCII Dafny string: one unit per character. */
  function Ascii(s: string): (r: JsStr)
    requires forall i :: 0 <= i < |s| ==> (s[i] as int) < 0x80
  {
    seq(|s|, i requires 0 <= i < |s| => s[i] as int)
  }

  /** The scalar values of a JavaScript string, unpaired surrogates read as U+FFFD. */
  function Chars(u: JsStr): (s: string)
    ensures |s| <= |u|
  {
    if |u| == 0 then []
    else if |u| >= 2 && IsHighSurrogate(u[0]) && IsLowSurrogate(u[1]) then
      [Pair(u[0], u[1])] + Chars(u[2..])
    else if IsSurrogate(u[0]) then [Replacement] + Chars(u[1..])
    else [u[0] as char] + Chars(u[1..])
  }

  /** No unpaired surrogate: every high surrogate is followed by a low one and
      every low surrogate follows a high one. */
  predicate WellFormed(u: JsStr) {
    && (forall i :: 0 <= i < |u| && IsHighSurrogate(u[i]) ==> i + 1 < |u| && IsLowSurrogate(u[i + 1]))
    && (forall i :: 0 < i < |u| && IsLowSurrogate(u[i]) ==> IsHighSurrogate(u[i - 1]))
    && (|u| > 0 ==> !IsLowSurrogate(u[0]))
  }

  /** A string with only basic-plane characters is stored one unit per character. */
  lemma {:induction false} LitBasicPlane(s: string)
    requires forall i :: 0 <= i < |s| ==> (s[i] as int) < 0x1_0000
    ensures |Lit(s)| == |s|
    ensures forall i :: 0 <= i < |s| ==> Lit(s)[i] == s[i] as int
  {
    if |s| > 0 {
      LitBasicPlane(s[1..]);
    }
  }

  /** An ASCII JavaScript string reads as the characters with the same codes. */
  lemma {:induction false} CharsAscii(u: JsStr)
    requires forall i :: 0 <= i < |u| ==> u[i] < 0x80
    ensures |Chars(u)| == |u|
    ensures forall i :: 0 <= i < |u| ==> Chars(u)[i] as int == u[i]
  {
    if |u| > 0 {
      CharsAscii(u[1..]);
      assert Chars(u) == [u[0] as char] + Chars(u[1..]);
    }
  }

  lemma AsciiIsLit(s: string)
    requires forall i :: 0 <= i < |s| ==> (s[i] as int) < 0x80
    ensures Ascii(s) == Lit(s)
  {
    LitBasicPlane(s);
  }

  lemma ReadEncodedChar(c: char, rest: JsStr)
    ensures Chars(EncodeChar(c) + rest) == [c] + Chars(rest)
  {
    var e := EncodeChar(c);
    if |e| == 1 {
      assert (e + rest)[1..] == rest;
    } else {
      var n := c as int;
      assert (e + rest)[2..] == rest;
      assert (n - 0x1_0000) / 0x400 * 0x400 + (n - 0x1_0000) % 0x400 == n - 0x1_0000;
    }
  }

  /** Reading a literal back gives the characters it was written from. */
  lemma {:induction false} CharsOfLit(s: string)
    ensures Chars(Lit(s)) == s
  {
    if |s| > 0 {
      ReadEncodedChar(s[0], Lit(s[1..]));
      CharsOfLit(s[1..]);
    }
  }

  lemma {:induction false} LitIsWellFormed(s: string)
    ensures WellFormed(Lit(s))
  {
    if |s| > 0 {
      LitIsWellFormed(s[1..]);
      var e, t := EncodeChar(s[0]), Lit(s[1..]);
      var u := e + t;
      assert u == Lit(s);
      forall i | 0 <= i < |u| && IsHighSurrogate(u[i])
        ensures i + 1 < |u| && IsLowSurrogate(u[i + 1])
      {
        if i >= |e| {
          assert u[i] == t[i - |e|];
        }
      }
      forall i | 0 < i < |u| && IsLowSurrogate(u[i])
        ensures IsHighSurrogate(u[i - 1])
      {
        if i > |e| {
          assert u[i] == t[i - |e|] && u[i - 1] == t[i - 1 - |e|];
        }
      }
    }
  }

  /** Dropping a first character, or a first surrogate pair, keeps a string well formed. */
  lemma WellFormedSuffix(u: JsStr, k: nat)
    requires WellFormed(u)
    requires k == 1 || k == 2
    requires k <= |u|
    requires k == 1 ==> !IsHighSurrogate(u[0])
    requires k == 2 ==> IsLowSurrogate(u[1])
    ensures WellFormed(u[k..])
  {
    var t := u[k..];
    forall i | 0 <= i < |t| && IsHighSurrogate(t[i])
      ensures i + 1 < |t| && IsLowSurrogate(t[i + 1])
    {
      assert t[i] == u[i + k];
    }
    forall i | 0 < i < |t| && IsLowSurrogate(t[i])
      ensures IsHighSurrogate(t[i - 1])
    {
      assert t[i] == u[i + k];
    }
    if |t| > 0 {
      assert t[0] == u[k];
    }
  }

  /** A surrogate pair is the UTF-16 form of the character it stands for. */
  lemma EncodePair(hi: int, lo: int)
    requires IsHighSurrogate(hi) && IsLowSurrogate(lo)
    ensures EncodeChar(Pair(hi, lo)) == [hi, lo]
  {
    var n := Pair(hi, lo) as int;
    assert n - 0x1_0000 == (hi - 0xD800) * 0x400 + (lo - 0xDC00);
    assert (n - 0x1_0000) / 0x400 == hi - 0xD800;
    assert (n - 0x1_0000) % 0x400 == lo - 0xDC00;
  }

  lemma LitCons(c: char, rest: string)
    ensures Lit([c] + rest) == EncodeChar(c) + Lit(rest)
  {
    assert ([c] + rest)[1..] == rest;
  }

  /** A well-formed JavaScript string is the literal of its own characters:
      reading it as scalar values loses nothing. */
  lemma {:induction false} LitOfChars(u: JsStr)
    requires WellFormed(u)
    ensures Lit(Chars(u)) == u
  {
    if |u| == 0 {
    } else if |u| >= 2 && IsHighSurrogate(u[0]) && IsLowSurrogate(u[1]) {
      var t := u[2..];
      WellFormedSuffix(u, 2);
      LitOfChars(t);
      var c := Pair(u[0], u[1]);
      assert Chars(u) == [c] + Chars(t);
      LitCons(c, Chars(t));
      EncodePair(u[0], u[1]);
      assert u == [u[0], u[1]] + t;
    } else {
      assert !IsSurrogate(u[0]);
      var t := u[1..];
      WellFormedSuffix(u, 1);
      LitOfChars(t);
      var c := u[0] as char;
      assert Chars(u) == [c] + Chars(t);
      LitCons(c, Chars(t));
      assert u == [u[0]] + t;
    }
  }
}
