/** A decoded frame becomes a full-size RGBA canvas: the crop is drawn at its
  * margins and the five special palette colours of the format are turned into
  * (semi-)transparent black. */
module DefImages {
  import opened Results
  import opened BinRead
  import opened DefExtract

  const Background: Rgba := Rgba(0, 255, 255, 255)
  const ShadowBorder: Rgba := Rgba(255, 150, 255, 255)
  const ShadowBody: Rgba := Rgba(255, 0, 255, 255)
  const Selection: Rgba := Rgba(255, 255, 0, 255)
  const SelectionShadowBody: Rgba := Rgba(180, 0, 255, 255)
  const SelectionShadowBorder: Rgba := Rgba(0, 255, 0, 255)

  /** The zero colour of an RGBA canvas, and what it reports outside its bounds. */
  const Transparent: Rgba := Rgba(0, 0, 0, 0)

  /** The alpha every special colour is given; its RGB becomes black. */
  const SpecialAlpha: map<Rgba, byte> := map[
    Background := 0,
    ShadowBorder := 64,
    ShadowBody := 128,
    SelectionShadowBody := 128,
    SelectionShadowBorder := 64]

  /** The colour the special-colour pass leaves in a pixel that held c. */
  function Recolour(c: Rgba): (r: Rgba)
    ensures c in SpecialAlpha ==> r == Rgba(0, 0, 0, SpecialAlpha[c]) && r.a < 255
    ensures c !in SpecialAlpha ==> r == c
    ensures r !in SpecialAlpha
  {
    if c in SpecialAlpha then Rgba(0, 0, 0, SpecialAlpha[c]) else c
  }

  /** The pass never changes a pixel twice: what it writes is no special colour. */
  lemma RecolourIdempotent(c: Rgba)
    ensures Recolour(Recolour(c)) == Recolour(c)
  {
  }

  /** The mapping the pass applies, colour by colour; the selection colour is kept. */
  lemma RecolourTable()
    ensures Recolour(Background) == Rgba(0, 0, 0, 0)
    ensures Recolour(ShadowBorder) == Rgba(0, 0, 0, 64)
    ensures Recolour(ShadowBody) == Rgba(0, 0, 0, 128)
    ensures Recolour(SelectionShadowBody) == Rgba(0, 0, 0, 128)
    ensures Recolour(SelectionShadowBorder) == Rgba(0, 0, 0, 64)
    ensures Recolour(Selection) == Selection
  {
    assert Selection !in SpecialAlpha;
  }

  /** An opaque colour after the pass was no special colour before it, and the
    * pass kept it. */
  lemma RecolourKeepsOpaque(c: Rgba)
    ensures Recolour(c).a == 255 ==> c !in SpecialAlpha && Recolour(c) == c
  {
  }

  // ---------------------------------------------------------------- canvas access

  predicate InBounds(img: array2<Rgba>, x: int, y: int)
  {
    0 <= x < img.Length0 && 0 <= y < img.Length1
  }

  /** image.RGBA.At: the pixel, or the zero colour outside the canvas. */
  function At(img: array2<Rgba>, x: int, y: int): (c: Rgba)
    reads img
    ensures !InBounds(img, x, y) ==> c == Transparent
  {
    if InBounds(img, x, y) then img[x, y] else Transparent
  }

  /** image.RGBA.Set: writes the pixel; a point outside the canvas is ignored. */
  method Set(img: array2<Rgba>, x: int, y: int, c: Rgba)
    modifies img
    ensures forall i, j :: InBounds(img, i, j) ==>
      img[i, j] == (if i == x && j == y then c else old(img[i, j]))
  {
    if InBounds(img, x, y) {
      img[x, y] := c;
    }
  }

  /** The five tests of the special-colour pass on one pixel, each one reading
    * the pixel afresh. */
  method RecolourPixel(img: array2<Rgba>, x: int, y: int)
    modifies img
    ensures forall i, j :: InBounds(img, i, j) ==>
      img[i, j] == (if i == x && j == y then Recolour(old(img[i, j])) else old(img[i, j]))
  {
    if At(img, x, y) == Background {
      Set(img, x, y, Rgba(0, 0, 0, 0));
    }
    if At(img, x, y) == ShadowBorder {
      Set(img, x, y, Rgba(0, 0, 0, 64));
    }
    if At(img, x, y) == ShadowBody {
      Set(img, x, y, Rgba(0, 0, 0, 128));
    }
    if At(img, x, y) == SelectionShadowBody {
      Set(img, x, y, Rgba(0, 0, 0, 128));
    }
    if At(img, x, y) == SelectionShadowBorder {
      Set(img, x, y, Rgba(0, 0, 0, 64));
    }
  }

  // ---------------------------------------------------------------- the frame rectangle

  /** The margin rectangle [LeftMargin, LeftMargin+Width) x [TopMargin, TopMargin+Height). */
  predicate InFrame(m: ImageMeta, x: int, y: int)
  {
    m.leftMargin <= x < m.leftMargin + m.width && m.topMargin <= y < m.topMargin + m.height
  }

  /** replaceDefSpecialColors: recolours every canvas pixel of the margin
    * rectangle, and no other. */
  method ReplaceDefSpecialColors(img: array2<Rgba>, imgMeta: ImageMeta)
    modifies img
    ensures forall i, j :: InBounds(img, i, j) ==>
      img[i, j] == (if InFrame(imgMeta, i, j) then Recolour(old(img[i, j])) else old(img[i, j]))
  {
    var x: int := imgMeta.leftMargin;
    while x < imgMeta.leftMargin + imgMeta.width
      invariant imgMeta.leftMargin <= x <= imgMeta.leftMargin + imgMeta.width
      invariant forall i, j :: InBounds(img, i, j) ==>
        img[i, j] == (if InFrame(imgMeta, i, j) && i < x then Recolour(old(img[i, j])) else old(img[i, j]))
    {
      var y: int := imgMeta.topMargin;
      while y < imgMeta.topMargin + imgMeta.height
        invariant imgMeta.topMargin <= y <= imgMeta.topMargin + imgMeta.height
        invariant forall i, j :: InBounds(img, i, j) ==>
          img[i, j] == (if InFrame(imgMeta, i, j) && (i < x || (i == x && j < y))
                        then Recolour(old(img[i, j])) else old(img[i, j]))
      {
        RecolourPixel(img, x, y);
        y := y + 1;
      }
      x := x + 1;
    }
  }

  // ---------------------------------------------------------------- drawing the crop

  /** Where draw.Draw writes: the margin rectangle clipped to the canvas. */
  predicate InClip(m: ImageMeta, x: int, y: int)
  {
    InFrame(m, x, y) && 0 <= x < m.fullWidth && 0 <= y < m.fullHeight
  }

  /** The index into the crop's pixels of canvas point (x, y). */
  function CropIndex(m: ImageMeta, x: int, y: int): int
  {
    (y - m.topMargin) * m.width + (x - m.leftMargin)
  }

  /** Every pixel draw.Draw reads lies inside the decoded pixel buffer. */
  ghost predicate CropCovered(pixels: seq<byte>, m: ImageMeta)
  {
    forall x, y :: InClip(m, x, y) ==> CropIndex(m, x, y) < |pixels|
  }

  /** The palette colour draw.Draw copies to canvas point (x, y); total, so that
    * contracts need not carry the buffer bound. */
  function CropColour(pixels: seq<byte>, palette: seq<Rgba>, m: ImageMeta, x: int, y: int): Rgba
    requires |palette| == 256
  {
    var k := CropIndex(m, x, y);
    if 0 <= k < |pixels| then palette[pixels[k]] else Transparent
  }

  /** The canvas decodePixels returns, pixel by pixel. */
  function Composite(pixels: seq<byte>, palette: seq<Rgba>, m: ImageMeta, x: int, y: int): (c: Rgba)
    requires |palette| == 256
    ensures !InClip(m, x, y) ==> c == Transparent
  {
    if InClip(m, x, y) then Recolour(CropColour(pixels, palette, m, x, y)) else Transparent
  }

  lemma CropIndexNonNegative(m: ImageMeta, x: int, y: int)
    requires InFrame(m, x, y)
    ensures 0 <= CropIndex(m, x, y)
  {
    var sy := y - m.topMargin;
    assert 0 <= sy * m.width;
  }

  /** Row-major indices of a w x h crop stay below w * h. */
  lemma IndexBelowArea(sx: int, sy: int, w: int, h: int)
    requires 0 <= sx < w && 0 <= sy < h
    ensures sy * w + sx < w * h
  {
    assert (sy + 1) * w == sy * w + w;
    assert (sy + 1) * w <= h * w;
  }

  /** A buffer of Width * Height bytes covers every pixel draw.Draw reads. */
  lemma CoveredWhenFull(pixels: seq<byte>, m: ImageMeta)
    requires |pixels| >= m.width * m.height
    ensures CropCovered(pixels, m)
  {
    forall x, y | InClip(m, x, y)
      ensures CropIndex(m, x, y) < |pixels|
    {
      IndexBelowArea(x - m.leftMargin, y - m.topMargin, m.width, m.height);
    }
  }

  datatype ImageError = PixelsTooShort

  /** Every pixel draw.Draw reads on canvas row y lies inside the buffer. */
  ghost predicate RowCovered(pixels: seq<byte>, m: ImageMeta, y: int)
  {
    forall x :: InClip(m, x, y) ==> CropIndex(m, x, y) < |pixels|
  }

  /** One canvas row of the draw.Draw call: the columns of the margin rectangle
    * that lie on the canvas, left to right. */
  method DrawRow(canvas: array2<Rgba>, pixels: seq<byte>, palette: seq<Rgba>, m: ImageMeta, y: int)
    returns (r: Result<(), ImageError>)
    requires |palette| == 256
    requires canvas.Length0 == m.fullWidth && canvas.Length1 == m.fullHeight
    modifies canvas
    ensures r.Ok? <==> RowCovered(pixels, m, y)
    ensures r.Ok? ==> forall i, j :: InBounds(canvas, i, j) ==>
      canvas[i, j] == (if j == y && InClip(m, i, j) then CropColour(pixels, palette, m, i, j) else old(canvas[i, j]))
  {
    var x0: int := if m.leftMargin < 0 then 0 else m.leftMargin;
    var x1: int := if m.leftMargin + m.width < m.fullWidth then m.leftMargin + m.width else m.fullWidth;
    var x := x0;
    if !(m.topMargin <= y < m.topMargin + m.height && 0 <= y < m.fullHeight) {
      return Ok(());
    }
    while x < x1
      invariant x0 <= x && (x0 < x1 ==> x <= x1)
      invariant forall i :: InClip(m, i, y) && i < x ==> CropIndex(m, i, y) < |pixels|
      invariant forall i, j :: InBounds(canvas, i, j) ==>
        canvas[i, j] == (if j == y && InClip(m, i, j) && i < x
                         then CropColour(pixels, palette, m, i, j) else old(canvas[i, j]))
    {
      var k := CropIndex(m, x, y);
      CropIndexNonNegative(m, x, y);
      if k >= |pixels| {
        assert InClip(m, x, y);
        return Err(PixelsTooShort);
      }
      canvas[x, y] := palette[pixels[k]];
      assert canvas[x, y] == CropColour(pixels, palette, m, x, y);
      x := x + 1;
    }
    r := Ok(());
  }

  /** The draw.Draw call of decodePixels: the crop, row by row, onto the canvas.
    * A crop pixel the buffer does not hold makes the Go slice index panic. */
  method DrawCrop(canvas: array2<Rgba>, pixels: seq<byte>, palette: seq<Rgba>, m: ImageMeta)
    returns (r: Result<(), ImageError>)
    requires |palette| == 256
    requires canvas.Length0 == m.fullWidth && canvas.Length1 == m.fullHeight
    modifies canvas
    ensures r.Ok? <==> CropCovered(pixels, m)
    ensures r.Ok? ==> forall i, j :: InBounds(canvas, i, j) ==>
      canvas[i, j] == (if InClip(m, i, j) then CropColour(pixels, palette, m, i, j) else old(canvas[i, j]))
  {
    var y0: int := if m.topMargin < 0 then 0 else m.topMargin;
    var y1: int := if m.topMargin + m.height < m.fullHeight then m.topMargin + m.height else m.fullHeight;
    var y := y0;
    while y < y1
      invariant y0 <= y && (y0 < y1 ==> y <= y1)
      invariant forall j :: j < y ==> RowCovered(pixels, m, j)
      invariant forall j :: j < y0 ==> RowCovered(pixels, m, j)
      invariant forall i, j :: InBounds(canvas, i, j) ==>
        canvas[i, j] == (if InClip(m, i, j) && j < y then CropColour(pixels, palette, m, i, j) else old(canvas[i, j]))
    {
      var row := DrawRow(canvas, pixels, palette, m, y);
      if row.Err? {
        assert !RowCovered(pixels, m, y);
        return row;
      }
      y := y + 1;
    }
    forall x, j | InClip(m, x, j)
      ensures CropIndex(m, x, j) < |pixels|
    {
      assert RowCovered(pixels, m, j);
    }
    r := Ok(());
  }

  /** decodePixels: a fresh FullWight x FullHeight canvas, all transparent, the
    * crop drawn at its margins, then the special-colour pass. */
  method DecodePixels(pixels: seq<byte>, palette: seq<Rgba>, imgMeta: ImageMeta)
    returns (r: Result<array2<Rgba>, ImageError>)
    requires |palette| == 256
    ensures r.Ok? <==> CropCovered(pixels, imgMeta)
    ensures r.Ok? ==> fresh(r.value)
    ensures r.Ok? ==> r.value.Length0 == imgMeta.fullWidth && r.value.Length1 == imgMeta.fullHeight
    ensures r.Ok? ==> forall i, j :: InBounds(r.value, i, j) ==>
      r.value[i, j] == Composite(pixels, palette, imgMeta, i, j)
  {
    var canvas := new Rgba[imgMeta.fullWidth, imgMeta.fullHeight]((i, j) => Transparent);
    var drawn := DrawCrop(canvas, pixels, palette, imgMeta);
    if drawn.Err? {
      return Err(drawn.error);
    }
    ReplaceDefSpecialColors(canvas, imgMeta);
    r := Ok(canvas);
  }

  // ---------------------------------------------------------------- properties of the canvas

  /** Outside the margin rectangle the canvas is fully transparent. */
  lemma OutsideFrameTransparent(pixels: seq<byte>, palette: seq<Rgba>, m: ImageMeta, x: int, y: int)
    requires |palette| == 256 && !InFrame(m, x, y)
    ensures Composite(pixels, palette, m, x, y) == Transparent
  {
  }

  /** A drawn pixel lands at (LeftMargin + sx, TopMargin + sy) as the palette
    * colour of crop pixel sy * Width + sx, recoloured. */
  lemma CropPixelPlacement(pixels: seq<byte>, palette: seq<Rgba>, m: ImageMeta, sx: int, sy: int)
    requires |palette| == 256 && CropCovered(pixels, m)
    requires 0 <= sx < m.width && 0 <= sy < m.height
    requires InClip(m, m.leftMargin + sx, m.topMargin + sy)
    ensures sy * m.width + sx < |pixels|
    ensures Composite(pixels, palette, m, m.leftMargin + sx, m.topMargin + sy)
         == Recolour(palette[pixels[sy * m.width + sx]])
    ensures palette[pixels[sy * m.width + sx]] !in SpecialAlpha ==>
      Composite(pixels, palette, m, m.leftMargin + sx, m.topMargin + sy) == palette[pixels[sy * m.width + sx]]
  {
    assert CropIndex(m, m.leftMargin + sx, m.topMargin + sy) == sy * m.width + sx;
    assert CropIndex(m, m.leftMargin + sx, m.topMargin + sy) < |pixels|;
  }

  /** Every canvas pixel is either a non-special palette colour or has alpha
    * below 255 and RGB black. */
  lemma CompositeSettled(pixels: seq<byte>, palette: seq<Rgba>, m: ImageMeta, x: int, y: int)
    requires |palette| == 256 && CropCovered(pixels, m)
    requires forall k :: 0 <= k < 256 ==> palette[k].a == 255
    ensures Composite(pixels, palette, m, x, y) !in SpecialAlpha
    ensures Composite(pixels, palette, m, x, y).a < 255 ==>
      Composite(pixels, palette, m, x, y).r == 0 && Composite(pixels, palette, m, x, y).g == 0 &&
      Composite(pixels, palette, m, x, y).b == 0
  {
    if InClip(m, x, y) {
      CropIndexNonNegative(m, x, y);
      assert CropColour(pixels, palette, m, x, y) == palette[pixels[CropIndex(m, x, y)]];
    }
  }

  /** Applying the special-colour pass to a canvas it already produced changes nothing. */
  lemma PassIdempotent(pixels: seq<byte>, palette: seq<Rgba>, m: ImageMeta, x: int, y: int)
    requires |palette| == 256
    ensures Recolour(Composite(pixels, palette, m, x, y)) == Composite(pixels, palette, m, x, y)
  {
    if InClip(m, x, y) {
      RecolourIdempotent(CropColour(pixels, palette, m, x, y));
    } else {
      assert Recolour(Transparent) == Transparent;
    }
  }
}
