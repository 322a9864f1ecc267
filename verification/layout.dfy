/**
 The geometry of `addCustomTextToBarcode`: the canvas it creates around the
 rendered barcode, the rectangles it fills and draws, and where the two price
 lines go. Pixels themselves, fonts and text measurement are not modelled.
 */
module Layout {
  import opened JsString

  /** Width and height in pixels of a bitmap or canvas. */
  datatype Size = Size(width: nat, height: nat)

  /** An axis-aligned rectangle on the canvas, origin at the top left. */
  datatype Rect = Rect(x: int, y: int, width: nat, height: nat)

  /** One line of centred text, placed by its horizontal centre and its baseline. */
  datatype TextLine = TextLine(text: JsStr, centerX: real, baseline: int)

  datatype Label = Label(canvas: Size, background: Rect, barcode: Rect, sales: TextLine, purchase: TextLine)

  /** Extra height below the barcode for the two price lines. */
  const TextBand: nat := 70

  /** Baseline of the first line below the barcode, and the step to the second. */
  const FirstBaseline: nat := 25
  const LineStep: nat := 25

  /** The font is `bold 14px Arial`: a line's em box reaches 14 pixels above its baseline. */
  const FontSize: nat := 14

  predicate Inside(r: Rect, c: Size) {
    0 <= r.x && r.x + r.width <= c.width && 0 <= r.y && r.y + r.height <= c.height
  }

  /** The top of a line's em box; the box ends at the baseline. */
  function LineTop(t: TextLine): int { t.baseline - FontSize }

  /** What a good label looks like for a barcode of size `b`: the canvas is as
      wide as the barcode; the background covers the whole canvas; the barcode
      is drawn unscaled in the top-left corner; each price line is horizontally
      centred and its em box lies inside the canvas, below the barcode; and the
      sales line sits wholly above the purchase line. */
  predicate WellLaidOut(l: Label, b: Size) {
    && l.canvas.width == b.width
    && l.background == Rect(0, 0, l.canvas.width, l.canvas.height)
    && l.barcode == Rect(0, 0, b.width, b.height)
    && Inside(l.barcode, l.canvas)
    && 2.0 * l.sales.centerX == l.canvas.width as real
    && 2.0 * l.purchase.centerX == l.canvas.width as real
    && b.height <= LineTop(l.sales)
    && l.sales.baseline <= LineTop(l.purchase)
    && 0 < l.sales.baseline < l.canvas.height
    && 0 < l.purchase.baseline < l.canvas.height
  }

  const SalesPrefix: JsStr := Ascii("Sales: ")
  const PurchasePrefix: JsStr := Ascii("Purchase: ")

  /** The label for a rendered barcode of size `b` and the two obfuscated prices. */
  function Compose(b: Size, hashedSales: JsStr, hashedPurchase: JsStr): (l: Label)
    ensures WellLaidOut(l, b)
    ensures l.canvas.height == b.height + TextBand
    ensures l.sales.baseline == b.height + FirstBaseline
    ensures l.purchase.baseline == b.height + FirstBaseline + LineStep
    ensures l.sales.text == SalesPrefix + hashedSales
    ensures l.purchase.text == PurchasePrefix + hashedPurchase
  {
    var canvas := Size(b.width, b.height + TextBand);
    var centerX := canvas.width as real / 2.0;
    var textStartY := b.height + FirstBaseline;
    Label(canvas,
          Rect(0, 0, canvas.width, canvas.height),
          Rect(0, 0, b.width, b.height),
          TextLine(SalesPrefix + hashedSales, centerX, textStartY),
          TextLine(PurchasePrefix + hashedPurchase, centerX, textStartY + LineStep))
  }

  /** The prices only change the text: the geometry depends on the barcode alone. */
  lemma GeometryIgnoresPrices(b: Size, s1: JsStr, p1: JsStr, s2: JsStr, p2: JsStr)
    ensures var l1, l2 := Compose(b, s1, p1), Compose(b, s2, p2);
      && l1.canvas == l2.canvas
      && l1.sales.baseline == l2.sales.baseline && l1.purchase.baseline == l2.purchase.baseline
  {
  }

  /** A taller barcode pushes both lines down by the same amount and leaves the
      band below the barcode unchanged. */
  lemma TextFollowsBarcode(b: Size, d: nat, s: JsStr, p: JsStr)
    ensures var l1, l2 := Compose(b, s, p), Compose(Size(b.width, b.height + d), s, p);
      && l2.sales.baseline == l1.sales.baseline + d
      && l2.purchase.baseline == l1.purchase.baseline + d
      && l2.canvas.height - l2.barcode.height == l1.canvas.height - l1.barcode.height
  {
  }
}
