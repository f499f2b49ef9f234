/** The second copy of the frame compositor, taking the pixel buffer as
  * `*[]uint8`; it draws and recolours exactly as DefImages does. */
module Homm3Images {
  import opened Results
  import opened BinRead
  import opened DefExtract
  import opened DefImages

  /** replaceHomm3SpecialColors: the special-colour pass over the margin rectangle. */
  method ReplaceHomm3SpecialColors(img: array2<Rgba>, imgMeta: ImageMeta)
    modifies img
    ensures forall i, j :: InBounds(img, i, j) ==>
      img[i, j] == (if InFrame(imgMeta, i, j) then Recolour(old(img[i, j])) else old(img[i, j]))
  {
    ReplaceDefSpecialColors(img, imgMeta);
  }

  /** decodePixels (the `*[]uint8` variant): a fresh FullWight x FullHeight canvas,
    * the crop drawn at its margins, then the special-colour pass. */
  method DecodePixels(pixels: seq<byte>, palette: seq<Rgba>, imgMeta: ImageMeta)
    returns (r: Result<array2<Rgba>, ImageError>)
    requires |palette| == 256
    ensures r.Ok? <==> CropCovered(pixels, imgMeta)
    ensures r.Ok? ==> fresh(r.value)
    ensures r.Ok? ==> r.value.Length0 == imgMeta.fullWidth && r.value.Length1 == imgMeta.fullHeight
    ensures r.Ok? ==> forall i, j :: InBounds(r.value, i, j) ==>
      r.value[i, j] == Composite(pixels, palette, imgMeta, i, j)
  {
    var canvas := new Rgba[imgMeta.fullWidth, imgMeta.fullHeight]((i, j) => Transparent);
    var drawn := DrawCrop(canvas, pixels, palette, imgMeta);
    if drawn.Err? {
      return Err(drawn.error);
    }
    ReplaceHomm3SpecialColors(canvas, imgMeta);
    r := Ok(canvas);
  }
}
