/** Worked examples of the obfuscation and of the request checks, on concrete inputs. */
module Scenarios {
  import opened Wrappers
  import opened JsString
  import opened Hashing
  import opened Handler
  import opened Layout
  import Utf8
  import Base64
  import Bytes

  /** "75.50" is longer than four units: its ends survive the mask. */
  lemma MaskLongPrice()
    ensures ApplyHashingFormat(Ascii("75.50"), Text(Ascii("mask"))) == Ascii("75***50")
  {
    MaskShape(Ascii("75.50"));
  }

  /** "100" is four units or fewer: only the stars remain. */
  lemma MaskShortPrice()
    ensures ApplyHashingFormat(Ascii("100"), Text(Ascii("mask"))) == Ascii("***")
  {
  }

  /** "509" under replace: each digit mapped on its own. */
  lemma ReplaceDigits()
    ensures ApplyHashingFormat(Ascii("509"), Text(Ascii("replace"))) == Ascii("@#*")
  {
    ReplaceIsSubstitution(Ascii("509"));
  }

  /** "100" in base 64 is "MTAw", whatever unknown selector is given. */
  lemma Base64OfHundred(sel: Selector)
    requires sel != Text(MaskName) && sel != Text(ReplaceName)
    ensures ApplyHashingFormat(Ascii("100"), sel) == Ascii("MTAw")
  {
    DefaultIsBase64(Ascii("100"), sel);
    BytesOfHundred();
    EncodeHundred();
    AsciiIsLit("MTAw");
  }

  /** "100" is the three bytes 0x31, 0x30, 0x30. */
  lemma BytesOfHundred()
    ensures BufferFrom(Ascii("100")) == [0x31, 0x30, 0x30]
  {
    CharsAscii(Ascii("100"));
    assert Chars(Ascii("100")) == "100";
    Utf8.EncodeAscii("100");
  }

  /** Three bytes make one group of four symbols and no padding; they split into
      the sextets 12, 19, 0 and 48. */
  lemma EncodeHundred()
    ensures Base64.Encode([0x31, 0x30, 0x30]) == "MTAw"
  {
    var b: seq<Bytes.Byte> := [0x31, 0x30, 0x30];
    assert Base64.Encode(b) == Base64.Quad(0x31, 0x30, 0x30) + Base64.Encode([]);
    var q := Base64.Quad(0x31, 0x30, 0x30);
    assert q[0] == Base64.Symbol(12) == 'M';
    assert q[1] == Base64.Symbol(19) == 'T';
    assert q[2] == Base64.Symbol(0) == 'A';
    assert q[3] == Base64.Symbol(48) == 'w';
  }

  /** A GET is refused before its body is looked at. */
  lemma GetRefused(render: BarcodeOptions -> Option<Size>)
    ensures StatusCode(Handle(Request(Ascii("GET"), Truthy(Ascii("ABC123")), Truthy(Ascii("100")),
                                      Truthy(Ascii("75.50")), Absent), render)) == 405
  {
  }
}
