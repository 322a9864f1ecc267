/**
 The price obfuscation `applyHashingFormat`: a price, already turned into its
 string form, and the request's `hashingFormat` selector give the text shown
 on the label. Three transforms exist: base 64 of the string's UTF-8 bytes
 (the default and the fallback), a mask that keeps only the first and last
 two code units, and a substitution of the digits `0`, `5` and `9`.
 */
module Hashing {
  import opened Wrappers
  import opened Bytes
  import opened JsString
  import Utf8
  import Base64

  datatype Format = Base64Format | Mask | Replace

  /** The `hashingFormat` field of the request body. */
  datatype Selector =
    | Absent              // undefined, null, false, 0, NaN: a falsy value that is not a string
    | Text(name: JsStr)   // a string; the empty string is falsy
    | OtherValue          // a truthy value that is not a string, which no `===` test matches

  predicate IsFalsy(sel: Selector) {
    sel.Absent? || (sel.Text? && |sel.name| == 0)
  }

  const Base64Name: JsStr := Ascii("base64")
  const MaskName: JsStr := Ascii("mask")
  const ReplaceName: JsStr := Ascii("replace")

  /** The format a selector picks: "mask" and "replace" by exact match, base 64
      for every other selector, absent or not. */
  function SelectFormat(sel: Selector): (f: Format)
    ensures f == Mask <==> sel == Text(MaskName)
    ensures f == Replace <==> sel == Text(ReplaceName)
    ensures IsFalsy(sel) || sel == Text(Base64Name) ==> f == Base64Format
  {
    NamesDistinct();
    if IsFalsy(sel) || sel == Text(Base64Name) then Base64Format
    else if sel == Text(MaskName) then Mask
    else if sel == Text(ReplaceName) then Replace
    else Base64Format
  }

  lemma NamesDistinct()
    ensures |MaskName| == 4 && |ReplaceName| == 7 && |Base64Name| == 6
  {
  }

  // ---- base 64 ----

  /** `Buffer.from(str)`: the UTF-8 bytes of the string's scalar values. */
  function BufferFrom(s: JsStr): seq<Byte>
  {
    Utf8.Encode(Chars(s))
  }

  /** `Buffer.from(str).toString('base64')`. */
  function ToBase64(s: JsStr): JsStr
  {
    Lit(Base64.Encode(BufferFrom(s)))
  }

  /** Undoes `ToBase64`: base 64 decoding, then UTF-8 decoding. */
  function FromBase64(r: JsStr): Option<JsStr>
  {
    match Base64.Decode(Chars(r))
    case None => None
    case Some(bytes) =>
      match Utf8.Decode(bytes)
      case None => None
      case Some(text) => Some(Lit(text))
  }

  lemma LitOfAscii(e: string)
    requires forall i :: 0 <= i < |e| ==> (e[i] as int) < 0x80
    ensures Chars(Lit(e)) == e && |Lit(e)| == |e|
  {
    CharsOfLit(e);
    LitBasicPlane(e);
  }

  lemma Base64Ascii(b: seq<Byte>)
    ensures forall i :: 0 <= i < |Base64.Encode(b)| ==> (Base64.Encode(b)[i] as int) < 0x80
  {
    var e := Base64.Encode(b);
    Base64.EncodeWellPadded(b);
    forall i | 0 <= i < |e|
      ensures (e[i] as int) < 0x80
    {
      if Base64.InAlphabet(e[i]) {
        Base64.ValueSymbol(e[i]);
      }
    }
  }

  /** The base 64 form of a price: four characters for every three bytes,
      rounded up, all from the alphabet except the trailing padding, and it
      decodes to exactly the bytes of the price. */
  lemma Base64Shape(s: JsStr)
    ensures var n := |BufferFrom(s)|;
      && |ToBase64(s)| == 4 * ((n + 2) / 3)
      && Base64.WellPadded(Chars(ToBase64(s)), Base64.PadsFor(n))
      && Base64.Decode(Chars(ToBase64(s))) == Some(BufferFrom(s))
  {
    var b := BufferFrom(s);
    var e := Base64.Encode(b);
    Base64Ascii(b);
    LitOfAscii(e);
    assert ToBase64(s) == Lit(e);
    assert Chars(ToBase64(s)) == e;
    Base64.EncodeWellPadded(b);
    Base64.DecodeEncode(b);
  }

  /** For an ASCII price, such as any decimal number, there is one byte per
      code unit, so the base 64 form has 4 * ceil(n / 3) characters. */
  lemma Base64LengthAscii(s: JsStr)
    requires forall i :: 0 <= i < |s| ==> s[i] < 0x80
    ensures |ToBase64(s)| == 4 * ((|s| + 2) / 3)
  {
    CharsAscii(s);
    Utf8.EncodeAscii(Chars(s));
    Base64Shape(s);
  }

  /** Decoding the base 64 form gives back the price, with every unpaired
      surrogate read as U+FFFD; a well-formed price comes back unchanged. */
  lemma Base64RoundTrip(s: JsStr)
    ensures FromBase64(ToBase64(s)) == Some(Lit(Chars(s)))
    ensures WellFormed(s) ==> FromBase64(ToBase64(s)) == Some(s)
  {
    Base64Shape(s);
    Utf8.DecodeEncode(Chars(s));
    if WellFormed(s) {
      LitOfChars(s);
    }
  }

  // ---- mask ----

  const Stars: JsStr := Ascii("***")

  /** `priceStr.substring(0, 2) + '***' + priceStr.substring(len - 2)` for
      strings longer than four code units, `'***'` otherwise. */
  function MaskPrice(s: JsStr): JsStr
  {
    if |s| <= 4 then Stars else s[..2] + Stars + s[|s| - 2..]
  }

  lemma StarsUnits()
    ensures Stars == [0x2A, 0x2A, 0x2A]
  {
  }

  /** Masking keeps the first two and last two code units of a price longer
      than four and nothing else: the result is seven units long, or the three
      stars alone for a short price. */
  lemma MaskShape(s: JsStr)
    ensures |s| <= 4 ==> MaskPrice(s) == Stars
    ensures |s| > 4 ==> && |MaskPrice(s)| == 7
                        && MaskPrice(s)[..2] == s[..2]
                        && MaskPrice(s)[2..5] == Stars
                        && MaskPrice(s)[5..] == s[|s| - 2..]
  {
    StarsUnits();
  }

  /** Two prices mask alike exactly when both are short, or both are long and
      agree on their first two and last two code units: the middle is hidden. */
  lemma MaskRevealsOnlyEnds(s: JsStr, t: JsStr)
    ensures MaskPrice(s) == MaskPrice(t) <==>
      (|s| <= 4 && |t| <= 4) ||
      (|s| > 4 && |t| > 4 && s[..2] == t[..2] && s[|s| - 2..] == t[|t| - 2..])
  {
    StarsUnits();
    if |s| > 4 && |t| > 4 && MaskPrice(s) == MaskPrice(t) {
      assert MaskPrice(s)[..2] == s[..2];
      assert MaskPrice(t)[..2] == t[..2];
      assert MaskPrice(s)[5..] == s[|s| - 2..];
      assert MaskPrice(t)[5..] == t[|t| - 2..];
    }
  }

  /** Masking a masked price changes nothing. */
  lemma MaskIdempotent(s: JsStr)
    ensures MaskPrice(MaskPrice(s)) == MaskPrice(s)
  {
    StarsUnits();
    if |s| > 4 {
      var m := MaskPrice(s);
      assert m == m[..2] + Stars + m[|m| - 2..];
    }
  }

  // ---- replace ----

  /** `s.replace(/x/g, y)` for a one-unit pattern: every occurrence of `target`
      becomes `replacement`. */
  function ReplaceAll(s: JsStr, target: CodeUnit, replacement: CodeUnit): (r: JsStr)
    ensures |r| == |s|
    ensures forall i :: 0 <= i < |s| ==> r[i] == (if s[i] == target then replacement else s[i])
  {
    if |s| == 0 then []
    else [if s[0] == target then replacement else s[0]] + ReplaceAll(s[1..], target, replacement)
  }

  const Zero: CodeUnit := '0' as int
  const Five: CodeUnit := '5' as int
  const Nine: CodeUnit := '9' as int
  const Hash: CodeUnit := '#' as int
  const At: CodeUnit := '@' as int
  const Star: CodeUnit := '*' as int

  /** The three chained global replacements, in the order written. */
  function ReplacePrice(s: JsStr): JsStr
  {
    ReplaceAll(ReplaceAll(ReplaceAll(s, Zero, Hash), Five, At), Nine, Star)
  }

  /** The substitution one code unit undergoes. */
  function Substitute(u: CodeUnit): CodeUnit
  {
    if u == Zero then Hash else if u == Five then At else if u == Nine then Star else u
  }

  /** Because no replacement is itself a digit that a later step replaces, the
      chain is a single per-unit substitution: same length, `0`, `5` and `9`
      replaced, every other unit as it was. */
  lemma ReplaceIsSubstitution(s: JsStr)
    ensures |ReplacePrice(s)| == |s|
    ensures forall i :: 0 <= i < |s| ==> ReplacePrice(s)[i] == Substitute(s[i])
    ensures forall i :: 0 <= i < |s| ==> ReplacePrice(s)[i] != Zero && ReplacePrice(s)[i] != Five && ReplacePrice(s)[i] != Nine
  {
  }

  /** The substitution reversed. */
  function Restore(u: CodeUnit): CodeUnit
  {
    if u == Hash then Zero else if u == At then Five else if u == Star then Nine else u
  }

  /** A price free of `#`, `@` and `*` (any decimal number) can be read back
      from its replaced form unit by unit. */
  lemma ReplaceReversible(s: JsStr)
    requires forall i :: 0 <= i < |s| ==> s[i] != Hash && s[i] != At && s[i] != Star
    ensures forall i :: 0 <= i < |s| ==> Restore(ReplacePrice(s)[i]) == s[i]
  {
    ReplaceIsSubstitution(s);
  }

  // ---- dispatch ----

  function Transform(f: Format, s: JsStr): JsStr
  {
    match f
    case Base64Format => ToBase64(s)
    case Mask => MaskPrice(s)
    case Replace => ReplacePrice(s)
  }

  /** `applyHashingFormat(price, format)` on the price's string form. */
  function ApplyHashingFormat(price: JsStr, sel: Selector): JsStr
  {
    Transform(SelectFormat(sel), price)
  }

  /** Only the exact strings "mask" and "replace" leave the default: an absent
      or empty selector, "base64", any other string and any non-string value
      all give the base 64 form. */
  lemma DefaultIsBase64(price: JsStr, sel: Selector)
    ensures ApplyHashingFormat(price, sel) == ToBase64(price) <== sel != Text(MaskName) && sel != Text(ReplaceName)
    ensures sel == Text(MaskName) ==> ApplyHashingFormat(price, sel) == MaskPrice(price)
    ensures sel == Text(ReplaceName) ==> ApplyHashingFormat(price, sel) == ReplacePrice(price)
  {
  }
}
