# Barcode label endpoint: a Dafny model

This project models the logic of the barcode webhook's single API route,
`pages/api/generate-barcode.js`. A POST carries a product code, a sales price, a
purchase price and an optional `hashingFormat`. The route does four things:

- it refuses any other method with 405, and any request that lacks a truthy
  product code, sales price or purchase price with 400;
- it obfuscates both prices with `applyHashingFormat`: base 64 of the price
  string's UTF-8 bytes by default and as the fallback, a `***` mask that keeps
  the first and last two characters, or a substitution of the digits `0`, `5`
  and `9`;
- it asks the Code 128 renderer for a barcode and lays it out on a canvas
  70 pixels taller, with a "Sales:" line and a "Purchase:" line below it;
- it returns the PNG as an attachment named `barcode-<productCode>.png`.

Modules:

- `JsString` (js_string.dfy): JavaScript strings are sequences of UTF-16 code
  units, which is what `length`, `substring` and `replace` work on. `Lit` is
  the code-unit form of a Dafny string, and `Ascii` is the same for ASCII text,
  one unit per character; the string constants of the code are written with it. `Chars` reads a JavaScript string as
  scalar values the way `Buffer.from` does, with unpaired surrogates becoming
  U+FFFD.
- `Utf8` (utf8.dfy): the UTF-8 encoding of RFC 3629 that `Buffer.from(str)`
  applies, together with a strict decoder as its partner.
- `Base64` (base64.dfy): the encoding of section 4 of RFC 4648 that
  `toString('base64')` produces, together with a strict decoder. The decoder
  accepts exactly the canonical encodings of section 3.5 of RFC 4648.
- `Hashing` (hashing.dfy): `applyHashingFormat`, with the selector dispatch and
  the three transforms.
- `Layout` (layout.dfy): the integer geometry of `addCustomTextToBarcode`.
- `Handler` (handler.dfy): `handler` as a pure decision over an abstract
  request. The barcode renderer is a parameter that maps the renderer options
  to the bitmap size, or fails.
- `Scenarios` (scenarios.dfy): the obfuscation and the method check on
  concrete inputs.

## Model

| member | source | states |
|---|---|---|
| Hashing.SelectFormat | pages/api/generate-barcode.js:106-127 | mask is chosen exactly for the string "mask" and replace exactly for "replace". A falsy selector or "base64" gives base 64. |
| Hashing.DefaultIsBase64 | pages/api/generate-barcode.js:103-128 | Any selector other than the exact strings "mask" and "replace" yields the base 64 form of the price. This covers absent, empty, "base64", unknown strings and non-string values. |
| Hashing.Base64Shape | pages/api/generate-barcode.js:108 | The base 64 form has 4·⌈n/3⌉ characters for n bytes. All of them are from the RFC 4648 alphabet, except (3 − n mod 3) mod 3 trailing `=`. It decodes to exactly the price's bytes. |
| Hashing.Base64LengthAscii | pages/api/generate-barcode.js:104-108 | For an ASCII price string of length n, the base 64 form has 4·⌈n/3⌉ characters. |
| Hashing.Base64RoundTrip | pages/api/generate-barcode.js:108 | Base 64 then UTF-8 decoding gives back the price, with unpaired surrogates read as U+FFFD. A well-formed price comes back unchanged. |
| Base64.DecodeEncode | pages/api/generate-barcode.js:108 | Decoding the base 64 encoding of any byte string gives back those bytes. |
| Base64.EncodeDecode | pages/api/generate-barcode.js:108 | Whatever the strict decoder accepts is the encoding of its result, so every byte string has exactly one encoding. |
| Base64.EncodeWellPadded | pages/api/generate-barcode.js:108 | An encoding is alphabet symbols followed by (3 − n mod 3) mod 3 padding characters. The padding appears only at the end. |
| Utf8.DecodeEncode | pages/api/generate-barcode.js:108 | Decoding the UTF-8 bytes that `Buffer.from` produces gives back the string's scalar values. |
| Utf8.EncodeDecode | pages/api/generate-barcode.js:108 | The strict UTF-8 decoder accepts only shortest-form encodings: what it accepts re-encodes to the same bytes. |
| Utf8.EncodeAscii | pages/api/generate-barcode.js:104-108 | An ASCII price string becomes one byte per character, each byte equal to the character's code. |
| JsString.CharsOfLit | pages/api/generate-barcode.js:108 | Reading a string's UTF-16 form back as scalar values returns the original characters. |
| JsString.LitOfChars | pages/api/generate-barcode.js:108 | A JavaScript string with no unpaired surrogate is recovered exactly from the scalar values `Buffer.from` reads. |
| JsString.LitIsWellFormed | pages/api/generate-barcode.js:108 | The UTF-16 form of any string has no unpaired surrogate. |
| Hashing.MaskShape | pages/api/generate-barcode.js:112-116 | A price of at most 4 code units masks to `***`. A longer price masks to 7 units: its first two, `***`, then its last two. |
| Hashing.MaskRevealsOnlyEnds | pages/api/generate-barcode.js:112-116 | Two prices mask alike exactly when both are short, or when both are long and share their first two and last two units. |
| Hashing.MaskIdempotent | pages/api/generate-barcode.js:112-116 | Masking an already masked price leaves it unchanged. |
| Hashing.ReplaceAll | pages/api/generate-barcode.js:121-123 | One global single-character replace keeps the length. Each occurrence of the target becomes the replacement, and every other unit is kept. |
| Hashing.ReplaceIsSubstitution | pages/api/generate-barcode.js:119-124 | The three chained replaces equal a single per-unit map 0→#, 5→@, 9→*. The length is kept, and no 0, 5 or 9 remains. |
| Hashing.ReplaceReversible | pages/api/generate-barcode.js:119-124 | A price with no `#`, `@` or `*` can be recovered unit by unit from its replaced form. |
| Handler.Handle | pages/api/generate-barcode.js:14-55 | 405 exactly for a non-POST method. 400 exactly for a POST with a falsy productCode, salesPrice or purchasePrice. 500 exactly for a complete POST whose barcode the renderer fails to draw. On success, both prices are hashed with the request's selector, the barcode encodes the product code, the barcode is Code 128 of the product code with the fixed options, the header names the product code, and the image is exactly the label composed from the rendered size and the two hashed prices. |
| Handler.MethodCheckedFirst | pages/api/generate-barcode.js:16-18 | A non-POST request gets 405, whatever its body holds. |
| Handler.ZeroPriceRefused | pages/api/generate-barcode.js:25-29 | A POST with a falsy price, such as 0 or "", gets 400. |
| Handler.SameFormatForBothPrices | pages/api/generate-barcode.js:32-33 | On success, one format transforms both the sales and the purchase price. |
| Handler.DispositionRoundTrip | pages/api/generate-barcode.js:54 | Reading the `Content-Disposition` header `attachment; filename="barcode-<code>.png"` back gives the product code. |
| Handler.DispositionOfProductCode | pages/api/generate-barcode.js:54 | Every header the reader accepts is the one built from the code it reads. |
| Layout.Compose | pages/api/generate-barcode.js:74-96 | The canvas is as wide as the barcode and 70 pixels taller, and the background covers all of it. The barcode is drawn unscaled at the top left. Both text lines are centred. The sales baseline is 25 pixels below the barcode and the purchase baseline 25 pixels further down. Both lie strictly inside the canvas, and each line's 14-pixel em box lies below the barcode without overlapping the other line. The text is "Sales: "/"Purchase: " followed by the hashed price. |
| Layout.GeometryIgnoresPrices | pages/api/generate-barcode.js:74-96 | The canvas and baselines depend only on the barcode size, never on the prices. |
| Layout.TextFollowsBarcode | pages/api/generate-barcode.js:74-96 | A taller barcode moves both baselines down by the same amount. The text band stays 70 pixels. |
| Scenarios.MaskLongPrice | pages/api/generate-barcode.js:112-116 | "75.50" masks to "75***50". |
| Scenarios.MaskShortPrice | pages/api/generate-barcode.js:113-114 | "100" masks to "***". |
| Scenarios.ReplaceDigits | pages/api/generate-barcode.js:119-124 | "509" becomes "@#*". |
| Scenarios.Base64OfHundred | pages/api/generate-barcode.js:107-108 | "100" under any selector other than "mask" or "replace" becomes "MTAw". |
| Scenarios.GetRefused | pages/api/generate-barcode.js:16-18 | A GET with a complete body gets 405. |

## Left out

- Price stringification: `price.toString()` on a number uses floating-point formatting. The model takes the price's string form as input.
- Barcode rendering: `bwipjs.toBuffer` is a foreign library. The model keeps only its options (Code 128, scale 3, height 10, text centred) and makes the rendered size, or a failure, a parameter.
- Drawing: `loadImage`, `fillRect`, `drawImage`, `fillText`, the Arial font import and `canvas.toBuffer('image/png')` are native pixel operations. Only the rectangles, baselines, centre and text of each call are modelled.
- Layout.Compose: a text line's vertical extent is taken as the 14-pixel em box above its baseline. Glyph descenders and text width are not measured, because they depend on the font.
- HTTP plumbing: the `res` object, header setting, JSON error bodies and `console.error` are not modelled. The 500 path is modelled only as a renderer failure. Other exceptions inside the `try` are not modelled. These include a missing body, an image that fails to load, and a product code that Node refuses as a header value.
- The `bodyParser` size limit (lines 6-12) is enforced by the framework before the handler runs.
- `billId` is destructured but never used, so the request does not carry it.
- Decoders: the source never decodes. The strict base 64 and UTF-8 decoders are reference partners for the encoders. They are not Node's lenient `Buffer.from(s, 'base64')`.
- next.config.mjs is build configuration (font file tracing) with no logic.
