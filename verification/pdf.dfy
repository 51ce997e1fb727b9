/**
 * The PDF side of saving (lib/pdf.ts): the test that spots CSS colour
 * functions html2canvas cannot paint, and the loop that tiles the captured
 * image over A4 pages. The capture itself and jsPDF's rendering are not
 * modelled; the document is reduced to the log of `addImage` and `addPage`
 * calls made on it.
 */
module PdfLayout {
  import opened JsBuiltins

  // ---------------------------------------------------------------------
  // Unsupported colour functions
  // ---------------------------------------------------------------------

  /** `containsUnsupportedColor(v)`: a missing or empty value is fine;
      otherwise the value is looked at in lower case. */
  function ContainsUnsupportedColor(v: Option<string>): (b: bool)
    ensures b ==> v.Some? && v.value != ""
  {
    match v
    case None => false
    case Some(x) =>
      x != "" &&
      var s := ToLower(x);
      Contains(s, "oklch(") || Contains(s, "oklab(") || Contains(s, "lab(") || Contains(s, "color(")
  }

  /** Every "oklab(" holds a "lab(" two characters further on. */
  lemma OklabHoldsLab(s: string)
    ensures Contains(s, "oklab(") ==> Contains(s, "lab(")
  {
    ContainsAt(s, "oklab(");
    ContainsAt(s, "lab(");
    if Contains(s, "oklab(") {
      var i :| OccursAt(s, "oklab(", i);
      assert s[i + 2..i + 6] == s[i..i + 6][2..];
      assert OccursAt(s, "lab(", i + 2);
    }
  }

  /** The "oklab(" test adds nothing: three functions decide the answer. */
  lemma OklabSubsumed(x: string)
    ensures ContainsUnsupportedColor(Some(x)) <==>
      x != "" && (var s := ToLower(x);
        Contains(s, "oklch(") || Contains(s, "lab(") || Contains(s, "color("))
  {
    OklabHoldsLab(ToLower(x));
  }

  /** Lower-casing is idempotent. */
  lemma ToLowerTwice(x: string)
    ensures ToLower(ToLower(x)) == ToLower(x)
  {
    var l := ToLower(x);
    assert forall i :: 0 <= i < |l| ==> LowerChar(l[i]) == l[i];
  }

  /** The test ignores case: a value and its lower-case form agree. */
  lemma CaseInsensitive(x: string)
    ensures ContainsUnsupportedColor(Some(ToLower(x))) == ContainsUnsupportedColor(Some(x))
  {
    ToLowerTwice(x);
  }

  /** A needle written in capitals is still found: "LAB(" anywhere flags
      the value. */
  lemma UpperCaseLab(x: string, i: nat)
    requires i + 4 <= |x| && x[i..i + 4] == "LAB("
    ensures ContainsUnsupportedColor(Some(x))
  {
    var s := ToLower(x);
    assert s[i..i + 4] == "lab(" by {
      forall k | 0 <= k < 4
        ensures s[i + k] == "lab("[k]
      {
        assert x[i + k] == "LAB("[k];
      }
    }
    assert OccursAt(s, "lab(", i);
    ContainsAt(s, "lab(");
  }

  // ---------------------------------------------------------------------
  // Tiling the captured image over pages
  // ---------------------------------------------------------------------

  /** The calls the tiling makes on the document. */
  datatype Op = AddImage(x: real, y: real, width: real, height: real) | AddPage

  /** The margin, in points, on every side. */
  const Margin: real := 20.0

  /** jsPDF's A4 page in points (portrait). */
  const A4Width: real := 595.28
  const A4Height: real := 841.89

  /** A jsPDF document, as far as the tiling uses it: the page size and the
      calls made so far. */
  class PdfDoc {
    const pageWidth: real
    const pageHeight: real
    var ops: seq<Op>

    /** `new jsPDF({ orientation: "p", unit: "pt", format: "a4" })`. */
    constructor A4()
      ensures pageWidth == A4Width && pageHeight == A4Height && ops == []
    {
      pageWidth := A4Width;
      pageHeight := A4Height;
      ops := [];
    }

    /** `pdf.addImage(imgData, "PNG", x, y, width, height)`. */
    method Image(x: real, y: real, width: real, height: real)
      modifies this
      ensures ops == old(ops) + [AddImage(x, y, width, height)]
    {
      ops := ops + [AddImage(x, y, width, height)];
    }

    /** `pdf.addPage()`. */
    method NewPage()
      modifies this
      ensures ops == old(ops) + [AddPage]
    {
      ops := ops + [AddPage];
    }
  }

  /** The call log of n copies of the image, `step` apart vertically: the
      first at the top margin, and before each later copy a page break. */
  predicate Tiled(ops: seq<Op>, n: nat, width: real, height: real, step: real)
  {
    && n >= 1
    && |ops| == 2 * n - 1
    && ops[0] == AddImage(Margin, Margin, width, height)
    && forall k :: 1 <= k < n ==>
         ops[2 * k - 1] == AddPage && ops[2 * k] == AddImage(Margin, Margin - k as real * step, width, height)
  }

  /** A page break and the next copy extend a tiling by one copy. */
  lemma TiledStep(prev: seq<Op>, n: nat, width: real, height: real, step: real)
    requires n >= 2 && Tiled(prev, n - 1, width, height, step)
    ensures Tiled(prev + [AddPage, AddImage(Margin, Margin - (n - 1) as real * step, width, height)],
                  n, width, height, step)
  {
    var ops := prev + [AddPage, AddImage(Margin, Margin - (n - 1) as real * step, width, height)];
    forall k | 1 <= k < n
      ensures ops[2 * k - 1] == AddPage && ops[2 * k] == AddImage(Margin, Margin - k as real * step, width, height)
    {
      if k < n - 1 {
        assert ops[2 * k - 1] == prev[2 * k - 1] && ops[2 * k] == prev[2 * k];
      }
    }
  }

  /** The calls that draw n copies of the image. */
  function Tiling(n: nat, width: real, height: real, step: real): seq<Op>
    requires n >= 1
  {
    if n == 1 then [AddImage(Margin, Margin, width, height)]
    else Tiling(n - 1, width, height, step) + [AddPage, AddImage(Margin, Margin - (n - 1) as real * step, width, height)]
  }

  /** The calls that draw n copies are n images, `step` apart, with a page
      break before every copy but the first. */
  lemma {:induction false} TilingShape(n: nat, width: real, height: real, step: real)
    requires n >= 1
    ensures Tiled(Tiling(n, width, height, step), n, width, height, step)
  {
    if n > 1 {
      TilingShape(n - 1, width, height, step);
      TiledStep(Tiling(n - 1, width, height, step), n, width, height, step);
    }
  }

  /** One more copy is a page break and the image one step further up. */
  lemma TilingNext(n: nat, width: real, height: real, step: real)
    requires n >= 1
    ensures Tiling(n + 1, width, height, step)
         == Tiling(n, width, height, step) + [AddPage, AddImage(Margin, Margin - n as real * step, width, height)]
  {
  }

  /** One more step of the same length. */
  lemma StepMore(k: nat, step: real)
    ensures (k + 1) as real * step == k as real * step + step
  {
  }

  /** Each copy after the first sits `step` above the one before it. */
  lemma TilingSteps(n: nat, width: real, height: real, step: real, k: nat)
    requires 1 <= k < n
    ensures var ops := Tiling(n, width, height, step);
      && 2 * k < |ops| && ops[2 * k].AddImage? && ops[2 * (k - 1)].AddImage?
      && ops[2 * k].y == ops[2 * (k - 1)].y - step
  {
    TilingShape(n, width, height, step);
  }

  /** n copies cover an image of the given height, n - 1 do not: the loop
      stops after the first copy that leaves no height over. */
  predicate Covers(n: nat, imgHeight: real, step: real)
  {
    n >= 1 && imgHeight <= n as real * step && (n == 1 || (n - 1) as real * step < imgHeight)
  }

  /** `Math.ceil(a / b)`. */
  function Ceil(a: real, b: real): int
    requires b > 0.0
  {
    -((-a / b).Floor)
  }

  /** The number of copies is max(1, ceil(imgHeight / step)). */
  lemma CoversIsCeil(n: nat, imgHeight: real, step: real)
    requires step > 0.0 && Covers(n, imgHeight, step)
    ensures n == if imgHeight <= 0.0 then 1 else Ceil(imgHeight, step)
  {
    if imgHeight > 0.0 {
      var q := imgHeight / step;
      assert q * step == imgHeight;
      assert imgHeight <= n as real * step && (n == 1 || (n - 1) as real * step < imgHeight);
      if n > 1 {
        MulCancelStrict((n - 1) as real, q, step);
      } else {
        assert (n - 1) as real < q;
      }
      MulCancel(q, n as real, step);
      assert (-q).Floor == -(n as int);
      assert -imgHeight / step == -q;
    }
  }

  /** A positive factor can be cancelled from both sides of `<=`. */
  lemma MulCancel(a: real, b: real, c: real)
    requires c > 0.0 && a * c <= b * c
    ensures a <= b
  {
  }

  /** A positive factor can be cancelled from both sides of `<`. */
  lemma MulCancelStrict(a: real, b: real, c: real)
    requires c > 0.0 && a * c < b * c
    ensures a < b
  {
  }

  /** Taking one step off a positive height lowers the whole number of
      steps it holds. */
  lemma FloorDrops(h: real, step: real)
    requires h > 0.0 && step > 0.0
    ensures 0 <= (h / step).Floor
    ensures ((h - step) / step).Floor < (h / step).Floor
  {
    var q := h / step;
    assert q * step == h;
    var r := (h - step) / step;
    assert r * step == h - step;
    var d := r - (q - 1.0);
    assert d * step == 0.0;
  }

  /** The tiling part of `generateQuotationPDF`: a fresh A4 document and
      the image scaled to the usable width, drawn by `DrawTiles`. */
  method TilePages(canvasWidth: real, canvasHeight: real) returns (pdf: PdfDoc, images: nat)
    requires canvasWidth > 0.0
    ensures fresh(pdf) && pdf.pageWidth == A4Width && pdf.pageHeight == A4Height
    ensures var width := A4Width - 2.0 * Margin;
      var height := width * (canvasHeight / canvasWidth);
      var step := A4Height - 2.0 * Margin;
      && images >= 1 && Covers(images, height, step)
      && pdf.ops == Tiling(images, width, height, step)
  {
    pdf := new PdfDoc.A4();
    var usableWidth := pdf.pageWidth - 2.0 * Margin;
    var imgHeight := usableWidth * (canvasHeight / canvasWidth);
    images := DrawTiles(pdf, usableWidth, imgHeight);
  }

  /** The drawing loop: the image at the top margin, then again one page
      further down, after a page break, while some of its height is left
      over. */
  method DrawTiles(pdf: PdfDoc, usableWidth: real, imgHeight: real) returns (images: nat)
    requires pdf.pageHeight > 2.0 * Margin && pdf.ops == []
    modifies pdf
    ensures var step := pdf.pageHeight - 2.0 * Margin;
      && images >= 1 && Covers(images, imgHeight, step)
      && pdf.ops == Tiling(images, usableWidth, imgHeight, step)
  {
    var step := pdf.pageHeight - 2.0 * Margin;
    var heightLeft := imgHeight;
    var position := Margin;
    pdf.Image(Margin, position, usableWidth, imgHeight);
    heightLeft := heightLeft - step;
    images := 1;
    ghost var covered := step;
    while heightLeft > 0.0
      invariant images >= 1 && covered == images as real * step
      invariant heightLeft == imgHeight - covered
      invariant position == Margin + step - covered
      invariant images == 1 || covered - step < imgHeight
      invariant pdf.ops == Tiling(images, usableWidth, imgHeight, step)
      decreases (heightLeft / step).Floor
    {
      FloorDrops(heightLeft, step);
      TilingNext(images, usableWidth, imgHeight, step);
      StepMore(images, step);
      pdf.NewPage();
      position := position - step;
      pdf.Image(Margin, position, usableWidth, imgHeight);
      heightLeft := heightLeft - step;
      covered := covered + step;
      images := images + 1;
    }
    StepMore(images - 1, step);
  }
}
