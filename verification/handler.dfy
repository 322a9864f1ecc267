/**
 The request handling of the barcode endpoint as a pure decision over an
 abstract request: the method check, the required-field check, the
 obfuscation of both prices, the options passed to the barcode renderer, the
 composed label and the download name. The renderer is a parameter: it maps
 the options to the size of the bitmap it draws, or fails.
 */
module Handler {
  import opened Wrappers
  import opened JsString
  import opened Hashing
  import opened Layout

  /** A destructured body field: falsy (absent, null, false, 0, NaN, "") or
      truthy, with the text its `toString()` gives. */
  datatype Field = Falsy | Truthy(text: JsStr)

  datatype Request = Request(
    httpMethod: JsStr,
    productCode: Field,
    salesPrice: Field,
    purchasePrice: Field,
    hashingFormat: Selector)

  /** What the handler asks the barcode renderer for. */
  datatype BarcodeOptions = BarcodeOptions(
    bcid: string,
    text: JsStr,
    scale: nat,
    heightMm: nat,
    includeText: bool,
    textXAlign: string)

  datatype Response =
    | MethodNotAllowed
    | MissingFields
    | RenderFailed
    | Png(hashedSales: JsStr, hashedPurchase: JsStr, barcode: BarcodeOptions,
          image: Label, contentDisposition: JsStr)

  function StatusCode(r: Response): int
  {
    match r
    case MethodNotAllowed => 405
    case MissingFields => 400
    case RenderFailed => 500
    case Png(_, _, _, _, _) => 200
  }

  const Post: JsStr := Ascii("POST")

  predicate HasRequiredFields(req: Request) {
    req.productCode.Truthy? && req.salesPrice.Truthy? && req.purchasePrice.Truthy?
  }

  /** Code 128, scale 3, bars 10 mm high, the code printed centred below. */
  function Code128Options(productCode: JsStr): (o: BarcodeOptions)
  {
    BarcodeOptions("code128", productCode, 3, 10, true, "center")
  }

  const DispositionPrefix: JsStr := Ascii("attachment; filename=\"barcode-")
  const DispositionSuffix: JsStr := Ascii(".png\"")

  /** The `Content-Disposition` header naming the download `barcode-<code>.png`. */
  function ContentDisposition(productCode: JsStr): JsStr
  {
    DispositionPrefix + productCode + DispositionSuffix
  }

  /** The middle of `s` between `prefix` and `suffix`, when it has both. */
  function Between(s: JsStr, prefix: JsStr, suffix: JsStr): (r: Option<JsStr>)
  {
    if |s| >= |prefix| + |suffix| && s[..|prefix|] == prefix && s[|s| - |suffix|..] == suffix
    then Some(s[|prefix|..|s| - |suffix|])
    else None
  }

  /** Reads the product code back out of a `Content-Disposition` header. */
  function ProductCodeOf(header: JsStr): (r: Option<JsStr>)
  {
    Between(header, DispositionPrefix, DispositionSuffix)
  }

  function Handle(req: Request, render: BarcodeOptions -> Option<Size>): (r: Response)
    ensures StatusCode(r) == 405 <==> req.httpMethod != Post
    ensures StatusCode(r) == 400 <==> req.httpMethod == Post && !HasRequiredFields(req)
    ensures StatusCode(r) == 500 <==>
      req.httpMethod == Post && HasRequiredFields(req) && render(Code128Options(req.productCode.text)).None?
    ensures StatusCode(r) == 200 ==> req.httpMethod == Post && HasRequiredFields(req)
    ensures r.Png? ==>
      && r.hashedSales == ApplyHashingFormat(req.salesPrice.text, req.hashingFormat)
      && r.hashedPurchase == ApplyHashingFormat(req.purchasePrice.text, req.hashingFormat)
      && r.barcode == Code128Options(req.productCode.text)
      && ProductCodeOf(r.contentDisposition) == Some(req.productCode.text)
      && render(r.barcode).Some?
      && r.image == Compose(render(r.barcode).value, r.hashedSales, r.hashedPurchase)
      && WellLaidOut(r.image, render(r.barcode).value)
  {
    if req.httpMethod != Post then MethodNotAllowed
    else if !HasRequiredFields(req) then MissingFields
    else
      var code := req.productCode.text;
      var hashedSales := ApplyHashingFormat(req.salesPrice.text, req.hashingFormat);
      var hashedPurchase := ApplyHashingFormat(req.purchasePrice.text, req.hashingFormat);
      var options := Code128Options(code);
      match render(options)
      case None => RenderFailed
      case Some(size) =>
        DispositionRoundTrip(code);
        Png(hashedSales, hashedPurchase, options, Compose(size, hashedSales, hashedPurchase),
            ContentDisposition(code))
  }

  lemma {:induction false} BetweenAffixes(prefix: JsStr, middle: JsStr, suffix: JsStr)
    ensures Between(prefix + middle + suffix, prefix, suffix) == Some(middle)
  {
    var s := prefix + middle + suffix;
    assert s[..|prefix|] == prefix;
    assert s[|s| - |suffix|..] == suffix;
    assert s[|prefix|..|s| - |suffix|] == middle;
  }

  lemma {:induction false} AffixesOfBetween(s: JsStr, prefix: JsStr, suffix: JsStr)
    requires Between(s, prefix, suffix).Some?
    ensures prefix + Between(s, prefix, suffix).value + suffix == s
  {
    assert s == s[..|prefix|] + s[|prefix|..|s| - |suffix|] + s[|s| - |suffix|..];
  }

  /** The header names exactly the product code: reading it back gives the
      code, and every header the reader accepts is the one built from its result. */
  lemma DispositionRoundTrip(code: JsStr)
    ensures ProductCodeOf(ContentDisposition(code)) == Some(code)
  {
    BetweenAffixes(DispositionPrefix, code, DispositionSuffix);
  }

  lemma DispositionOfProductCode(header: JsStr, code: JsStr)
    requires ProductCodeOf(header) == Some(code)
    ensures ContentDisposition(code) == header
  {
    AffixesOfBetween(header, DispositionPrefix, DispositionSuffix);
  }

  /** The method is checked before anything else: a request that is not a POST
      gets 405 whatever its body holds. */
  lemma MethodCheckedFirst(req: Request, other: Request, render: BarcodeOptions -> Option<Size>)
    requires req.httpMethod != Post && other.httpMethod == req.httpMethod
    ensures Handle(req, render) == Handle(other, render) == MethodNotAllowed
  {
  }

  /** Both prices go through the same format, whichever the selector picks. */
  lemma SameFormatForBothPrices(req: Request, render: BarcodeOptions -> Option<Size>)
    requires Handle(req, render).Png?
    ensures exists f: Format ::
      && Handle(req, render).hashedSales == Transform(f, req.salesPrice.text)
      && Handle(req, render).hashedPurchase == Transform(f, req.purchasePrice.text)
  {
    var f := SelectFormat(req.hashingFormat);
    assert Handle(req, render).hashedSales == Transform(f, req.salesPrice.text);
  }

  /** A zero price is falsy, so a POST carrying it is refused as missing a field. */
  lemma ZeroPriceRefused(req: Request, render: BarcodeOptions -> Option<Size>)
    requires req.httpMethod == Post && (req.salesPrice == Falsy || req.purchasePrice == Falsy)
    ensures StatusCode(Handle(req, render)) == 400
  {
  }
}
