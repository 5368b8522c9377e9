/**
 * The arithmetic of the card export: the centre crop `createCroppedImage`
 * applies to the employee photo, the PDF pages `downloadPDF` lays out, and
 * the `backData` object the back of the card is drawn from.  Lengths are
 * exact reals; the browser computes them in double precision.
 */
module CardPreview {
  import opened JsValues

  /** A source or destination rectangle of `drawImage`. */
  datatype Rect = Rect(x: real, y: real, w: real, h: real)

  /** `MM_TO_PX`: pixels per millimetre at 96 DPI. */
  const MmToPx: real := 3.7795275591

  /** The printed card is 53.98 mm wide and 85.6 mm tall (ISO/IEC 7810 ID-1,
      upright); the code names these `h` and `w`. */
  const CardWidthMm: real := 53.98
  const CardHeightMm: real := 85.6

  /** The employee photo box on the exported card: 20 mm by 24 mm. */
  const PhotoWidthPx: real := 20.0 * MmToPx
  const PhotoHeightPx: real := 24.0 * MmToPx

  // ---- createCroppedImage ----

  /** The source rectangle: a too-wide image loses equal strips left and
      right, any other image equal strips top and bottom. */
  function CropRect(iw: real, ih: real, tw: real, th: real): (r: Rect)
    requires iw > 0.0 && ih > 0.0 && tw > 0.0 && th > 0.0
    ensures iw / ih > tw / th ==> r.h == ih && r.y == 0.0
    ensures iw / ih <= tw / th ==> r.w == iw && r.x == 0.0
  {
    var imgAspect := iw / ih;
    var targetAspect := tw / th;
    if imgAspect > targetAspect then
      var sWidth := ih * targetAspect;
      Rect((iw - sWidth) / 2.0, 0.0, sWidth, ih)
    else
      var sHeight := iw / targetAspect;
      Rect(0.0, (ih - sHeight) / 2.0, iw, sHeight)
  }

  /** The rectangle lies inside `iw` by `ih`. */
  predicate Inside(r: Rect, iw: real, ih: real) {
    0.0 <= r.x && r.x + r.w <= iw && 0.0 <= r.y && r.y + r.h <= ih
  }

  /** The crop lies inside the image, has the target's aspect ratio, is
      centred, and keeps one full dimension of the image. */
  lemma CropFits(iw: real, ih: real, tw: real, th: real)
    requires iw > 0.0 && ih > 0.0 && tw > 0.0 && th > 0.0
    ensures var r := CropRect(iw, ih, tw, th);
      && r.w > 0.0 && r.h > 0.0
      && Inside(r, iw, ih)
      && r.w / r.h == tw / th
      && r.x == (iw - r.w) / 2.0 && r.y == (ih - r.h) / 2.0
      && (r.w == iw || r.h == ih)
  {
    var r := CropRect(iw, ih, tw, th);
    var a := tw / th;
    assert a > 0.0;
    if iw / ih > a {
      assert iw > ih * a by { MulBelow(iw, ih, a); }
      assert r.w / r.h == a by { DivCancel(ih, a); }
    } else {
      assert iw / a <= ih by { DivBelow(iw, ih, a); }
      assert r.w / r.h == a by { DivInverse(iw, a); }
    }
  }

  /** No larger rectangle of the target's aspect ratio fits in the image:
      the crop is the largest one, so the least of the photo is cut. */
  lemma CropIsLargest(iw: real, ih: real, tw: real, th: real, other: Rect)
    requires iw > 0.0 && ih > 0.0 && tw > 0.0 && th > 0.0
    requires other.w > 0.0 && other.h > 0.0 && other.w <= iw && other.h <= ih
    requires other.w / other.h == tw / th
    ensures other.w <= CropRect(iw, ih, tw, th).w && other.h <= CropRect(iw, ih, tw, th).h
  {
    var r := CropRect(iw, ih, tw, th);
    var a := tw / th;
    CropFits(iw, ih, tw, th);
    assert other.w == other.h * a by { DivToMul(other.w, other.h, a); }
    assert r.w == r.h * a by { DivToMul(r.w, r.h, a); }
    if iw / ih > a {
      assert other.h * a <= ih * a;
    } else {
      assert other.w <= iw;
      assert other.h * a <= r.h * a;
      LessByFactor(other.h, r.h, a);
    }
  }

  lemma MulBelow(iw: real, ih: real, a: real)
    requires ih > 0.0 && iw / ih > a
    ensures iw > ih * a
  {
    assert iw == (iw / ih) * ih;
  }

  lemma DivBelow(iw: real, ih: real, a: real)
    requires ih > 0.0 && a > 0.0 && iw / ih <= a
    ensures iw / a <= ih
  {
    assert iw == (iw / ih) * ih;
    assert iw <= a * ih;
  }

  lemma DivCancel(ih: real, a: real)
    requires ih > 0.0
    ensures (ih * a) / ih == a
  {
  }

  lemma DivInverse(iw: real, a: real)
    requires iw > 0.0 && a > 0.0
    ensures iw / (iw / a) == a
  {
  }

  lemma DivToMul(w: real, h: real, a: real)
    requires h > 0.0 && w / h == a
    ensures w == h * a
  {
    assert w == (w / h) * h;
  }

  lemma LessByFactor(x: real, y: real, a: real)
    requires a > 0.0 && x * a <= y * a
    ensures x <= y
  {
  }

  /** `canvas.width = v` for a non-negative `v` stores its integer part. */
  function CanvasDimension(v: real): (n: int)
    requires v >= 0.0
    ensures n >= 0 && n as real <= v < n as real + 1.0
  {
    v.Floor
  }

  /** What `createCroppedImage` draws: a canvas of the truncated target size,
      and one `drawImage` from the crop rectangle onto the target box. */
  datatype CroppedImage = CroppedImage(canvasWidth: int, canvasHeight: int, source: Rect, dest: Rect)

  function CreateCroppedImage(iw: real, ih: real, tw: real, th: real): (c: CroppedImage)
    requires iw > 0.0 && ih > 0.0 && tw > 0.0 && th > 0.0
    ensures c.dest == Rect(0.0, 0.0, tw, th)
    ensures c.source == CropRect(iw, ih, tw, th)
    ensures c.canvasWidth as real <= tw < c.canvasWidth as real + 1.0
    ensures c.canvasHeight as real <= th < c.canvasHeight as real + 1.0
  {
    CroppedImage(CanvasDimension(tw), CanvasDimension(th), CropRect(iw, ih, tw, th), Rect(0.0, 0.0, tw, th))
  }

  /** The destination has the source's shape, so the photo is scaled
      without distortion. */
  lemma CroppedImageUndistorted(iw: real, ih: real, tw: real, th: real)
    requires iw > 0.0 && ih > 0.0 && tw > 0.0 && th > 0.0
    ensures var c := CreateCroppedImage(iw, ih, tw, th); c.source.w / c.source.h == c.dest.w / c.dest.h
  {
    CropFits(iw, ih, tw, th);
  }

  /** The photo box is a 75 by 90 pixel canvas with aspect ratio 5:6. */
  lemma PhotoCanvas(iw: real, ih: real)
    requires iw > 0.0 && ih > 0.0
    ensures var c := CreateCroppedImage(iw, ih, PhotoWidthPx, PhotoHeightPx);
      c.canvasWidth == 75 && c.canvasHeight == 90
    ensures PhotoWidthPx / PhotoHeightPx == 5.0 / 6.0
  {
    assert 75.0 <= PhotoWidthPx < 76.0;
    assert 90.0 <= PhotoHeightPx < 91.0;
  }

  // ---- downloadPDF ----

  datatype Orientation = Portrait | Landscape

  /** An `addImage` placement, in millimetres. */
  datatype Placement = Placement(x: real, y: real, w: real, h: real)

  datatype Page = Page(width: real, height: real, images: seq<Placement>)

  /** `pageFormat = [h, w]`. */
  const PageFormat: (real, real) := (CardWidthMm, CardHeightMm)

  /** jsPDF's page size for a format and an orientation: portrait puts the
      shorter side across, landscape the longer one. */
  function PageSize(format: (real, real), o: Orientation): (size: (real, real))
    ensures o == Portrait ==> size.0 <= size.1
    ensures o == Landscape ==> size.0 >= size.1
    ensures size == format || size == (format.1, format.0)
  {
    var (a, b) := format;
    match o
    case Portrait => if a > b then (b, a) else (a, b)
    case Landscape => if a < b then (b, a) else (a, b)
  }

  /** `pdf.addImage(imgData, "PNG", 0, 0, h, w)`. */
  const FullCard: Placement := Placement(0.0, 0.0, CardWidthMm, CardHeightMm)

  /** The pages of the PDF after the loop over `count` captured card faces:
      the constructor's page takes the first face, `addPage` opens one page
      per further face, and each face is placed on the newest page. */
  method PagePlan(count: nat) returns (pages: seq<Page>)
    ensures |pages| == if count == 0 then 1 else count
    ensures forall p :: p in pages ==> p.width == CardWidthMm && p.height == CardHeightMm
    ensures forall i :: 0 <= i < count ==> pages[i].images == [FullCard]
    ensures count == 0 ==> pages[0].images == []
  {
    var size := PageSize(PageFormat, Portrait);
    pages := [Page(size.0, size.1, [])];
    var i := 0;
    while i < count
      invariant 0 <= i <= count
      invariant |pages| == if i == 0 then 1 else i
      invariant forall p :: p in pages ==> p.width == CardWidthMm && p.height == CardHeightMm
      invariant forall j :: 0 <= j < i ==> pages[j].images == [FullCard]
      invariant i == 0 ==> pages[0].images == []
    {
      if i > 0 {
        var next := PageSize(PageFormat, Portrait);
        pages := pages + [Page(next.0, next.1, [])];
      }
      var last := |pages| - 1;
      pages := pages[last := pages[last].(images := pages[last].images + [FullCard])];
      i := i + 1;
    }
  }

  /** Every placed face covers its page exactly. */
  lemma FullCardFillsPage()
    ensures var size := PageSize(PageFormat, Portrait);
      FullCard == Placement(0.0, 0.0, size.0, size.1)
  {
  }

  /** A box in CSS pixels. */
  datatype Box = Box(width: real, height: real)

  /** The off-screen wrapper a face is cloned into and captured from: the
      page format's two sides in millimetres, converted at `MM_TO_PX`. */
  function CaptureBox(format: (real, real)): (b: Box)
    requires format.0 > 0.0 && format.1 > 0.0
    ensures b.width > 0.0 && b.height > 0.0
    ensures b.width / b.height == format.0 / format.1
  {
    ScaleKeepsRatio(format.0, format.1, MmToPx);
    Box(format.0 * MmToPx, format.1 * MmToPx)
  }

  lemma ScaleKeepsRatio(a: real, b: real, k: real)
    requires b > 0.0 && k > 0.0
    ensures (a * k) / (b * k) == a / b
  {
    assert (a * k) / (b * k) * (b * k) == a * k;
  }

  /** The captured face has the page's shape and is drawn onto the whole
      page: one scale factor, millimetres per pixel, on both axes, so the
      face is neither stretched nor cut. */
  lemma WrapperMatchesPage()
    ensures var b := CaptureBox(PageFormat);
      var size := PageSize(PageFormat, Portrait);
      && b.width / b.height == size.0 / size.1
      && FullCard.w / b.width == FullCard.h / b.height
      && FullCard.w / b.width == 1.0 / MmToPx
  {
  }

  // ---- backData ----

  /** The employee fields printed on the back of the card. */
  const BackEmployeeFields: seq<string> := ["licenceNo", "licenceCategory", "licenceValidity", "dateOfIssue"]

  /** `{ ...base, k1: src.k1, ..., kn: src.kn }`. */
  function Override(base: Record, src: Record, keys: seq<string>): (r: Record)
    ensures r.Keys == base.Keys + KeySet(keys)
    ensures forall k :: k in keys ==> r[k] == Get(src, k)
    ensures forall k :: k in base && k !in keys ==> r[k] == base[k]
  {
    base + Project(src, keys)
  }

  /** `backData`: the vehicle form with the four licence fields of the
      employee form written over it. */
  function BackData(emp: Record, veh: Record): (b: Record)
    ensures b.Keys == veh.Keys + KeySet(BackEmployeeFields)
  {
    Override(veh, emp, BackEmployeeFields)
  }

  /** The licence fields come from the employee form even when the vehicle
      form has its own; every other vehicle field is kept. */
  lemma BackDataFields(emp: Record, veh: Record)
    ensures var b := BackData(emp, veh);
      && b.Keys == veh.Keys + {"licenceNo", "licenceCategory", "licenceValidity", "dateOfIssue"}
      && b["licenceNo"] == Get(emp, "licenceNo")
      && b["licenceCategory"] == Get(emp, "licenceCategory")
      && b["licenceValidity"] == Get(emp, "licenceValidity")
      && b["dateOfIssue"] == Get(emp, "dateOfIssue")
      && forall k :: k in veh && k !in BackEmployeeFields ==> b[k] == veh[k]
  {
    assert KeySet(BackEmployeeFields) == {"licenceNo", "licenceCategory", "licenceValidity", "dateOfIssue"};
  }
}
