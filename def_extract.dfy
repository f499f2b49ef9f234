/** The DEF sprite container: header, palette, block/frame index, per-frame
  * metadata and the per-frame reconciliation loop of `extractBlocksContent`
  * (defparse/def_extract.go). The file is a byte sequence; the file
  * cursor is a local position that reads advance and seeks reassign. */
module DefExtract {

  import opened Results
  import opened BinRead

  /** Sentinel the source uses for "not yet set" (canonical size and file format). */
  const Unset: u32 := 99999

  /** Absolute offset of the block index: 16 header bytes and 256 * 3 palette bytes. */
  const BlocksOffset: nat := 784

  datatype Rgba = Rgba(r: byte, g: byte, b: byte, a: byte)

  datatype DefHeader = DefHeader(defType: u32, width: u32, height: u32, blocks: u32)

  /** One entry of a block's frame list: a frame name and the absolute offset of its data. */
  datatype DefImage = DefImage(name: seq<byte>, offset: u32)

  datatype DefBlockMeta = DefBlockMeta(id: u32, defImages: seq<DefImage>)

  /** The 32-byte frame record (the source spells the third field `FullWight`). */
  datatype ImageMeta = ImageMeta(
    size: u32, format: u32, fullWidth: u32, fullHeight: u32,
    width: u32, height: u32, leftMargin: i32, topMargin: i32)

  /** What the extraction loop produces for one frame: an empty 0x0 image, or a
    * frame whose (reconciled) metadata is handed to the pixel decoder. */
  datatype Frame = EmptyImage | Image(meta: ImageMeta)

  datatype DefError =
    | HeaderTruncated
    | PaletteTruncated
    | IndexTruncated
    | ImageMetaTruncated
    | MarginsOutOfBounds
    | WidthGreaterThanFirst
    | HeightGreaterThanFirst
    | FormatDiffers

  // ---------------------------------------------------------------- header

  /** readDefMeta: four consecutive little-endian u32 values. */
  method ReadDefMeta(data: seq<byte>, pos: nat) returns (r: Result<(DefHeader, nat), DefError>)
    ensures r.Ok? <==> pos + 16 <= |data|
    ensures r.Err? ==> r.error == HeaderTruncated
    ensures r.Ok? ==> r.value.1 == pos + 16 && r.value.0 == DefHeader(
      Uint32At(data, pos), Uint32At(data, pos + 4), Uint32At(data, pos + 8), Uint32At(data, pos + 12))
  {
    var cur := pos;
    var defType := ReadUint32(data, cur);
    if defType.ShortRead? { return Err(HeaderTruncated); }
    cur := defType.next;
    var width := ReadUint32(data, cur);
    if width.ShortRead? { return Err(HeaderTruncated); }
    cur := width.next;
    var height := ReadUint32(data, cur);
    if height.ShortRead? { return Err(HeaderTruncated); }
    cur := height.next;
    var blocks := ReadUint32(data, cur);
    if blocks.ShortRead? { return Err(HeaderTruncated); }
    cur := blocks.next;
    r := Ok((DefHeader(defType.value, width.value, height.value, blocks.value), cur));
  }

  // --------------------------------------------------------------- palette

  /** readDefPalette: 256 RGB triples, alpha fixed at 255. */
  method ReadDefPalette(data: seq<byte>, pos: nat) returns (r: Result<(seq<Rgba>, nat), DefError>)
    ensures r.Ok? <==> pos + 768 <= |data|
    ensures r.Err? ==> r.error == PaletteTruncated
    ensures r.Ok? ==> |r.value.0| == 256 && r.value.1 == pos + 768
    ensures r.Ok? ==> forall i :: 0 <= i < 256 ==>
      r.value.0[i] == Rgba(data[pos + 3 * i], data[pos + 3 * i + 1], data[pos + 3 * i + 2], 255)
  {
    var palette := seq(256, _ => Rgba(0, 0, 0, 0));
    var cur := pos;
    var i := 0;
    while i < 256
      invariant 0 <= i <= 256
      invariant cur == pos + 3 * i
      invariant i > 0 ==> pos + 3 * i <= |data|
      invariant |palette| == 256
      invariant forall k :: 0 <= k < i ==>
        palette[k] == Rgba(data[pos + 3 * k], data[pos + 3 * k + 1], data[pos + 3 * k + 2], 255)
    {
      var red := ReadUint8(data, cur);
      if red.ShortRead? { return Err(PaletteTruncated); }
      var green := ReadUint8(data, red.next);
      if green.ShortRead? { return Err(PaletteTruncated); }
      var blue := ReadUint8(data, green.next);
      if blue.ShortRead? { return Err(PaletteTruncated); }
      cur := blue.next;
      palette := palette[i := Rgba(red.value, green.value, blue.value, 255)];
      i := i + 1;
    }
    r := Ok((palette, cur));
  }

  // ----------------------------------------------------------- block index

  /** Entry j of a block whose name table starts at q and holds `count` names:
    * the j-th 13-byte name paired with the j-th u32 of the offset table that follows. */
  function ImageAt(data: seq<byte>, q: nat, count: nat, j: nat): DefImage
    requires j < count && q + 17 * count <= |data|
  {
    DefImage(FieldName(data[q + 13 * j .. q + 13 * j + 13]), Uint32At(data, q + 13 * count + 4 * j))
  }

  function ImagesAt(data: seq<byte>, q: nat, count: nat): (r: seq<DefImage>)
    requires count == 0 || q + 17 * count <= |data|
    ensures |r| == count
  {
    seq(count, j requires 0 <= j < count => ImageAt(data, q, count, j))
  }

  /** The block entry starting at p and the position just after it: id, count,
    * 8 reserved bytes, `count` names of 13 bytes, then `count` u32 offsets. */
  function BlockAt(data: seq<byte>, p: nat): Option<(DefBlockMeta, nat)>
  {
    if p + 8 > |data| then None
    else
      var count := Uint32At(data, p + 4);
      if count != 0 && p + 16 + 17 * count > |data| then None
      else Some((DefBlockMeta(Uint32At(data, p), ImagesAt(data, p + 16, count)), p + 16 + 17 * count))
  }

  /** The k block entries stored back to back from p, or None on a short read. */
  function BlocksFrom(data: seq<byte>, p: nat, k: nat): (r: Option<seq<DefBlockMeta>>)
    ensures r.Some? ==> |r.value| == k
    decreases k
  {
    if k == 0 then Some([])
    else match BlockAt(data, p)
      case None => None
      case Some((b, next)) =>
        match BlocksFrom(data, next, k - 1)
        case None => None
        case Some(bs) => Some([b] + bs)
  }

  /** The name table of a block: `count` 13-byte names read from q; offsets still 0. */
  method ReadNameTable(data: seq<byte>, q: nat, count: u32) returns (r: Result<seq<DefImage>, DefError>)
    ensures r.Ok? <==> count == 0 || q + 13 * count <= |data|
    ensures r.Err? ==> r.error == IndexTruncated
    ensures r.Ok? ==> |r.value| == count && forall i :: 0 <= i < count ==>
      r.value[i] == DefImage(FieldName(data[q + 13 * i .. q + 13 * i + 13]), 0)
  {
    var pos := q;
    var images: seq<DefImage> := [];
    var j := 0;
    while j < count
      invariant 0 <= j <= count
      invariant pos == q + 13 * j
      invariant j > 0 ==> pos <= |data|
      invariant |images| == j
      invariant forall i :: 0 <= i < j ==>
        images[i] == DefImage(FieldName(data[q + 13 * i .. q + 13 * i + 13]), 0)
    {
      var name := ReadAvailableChars(data, pos, 13);
      if name.ShortRead? { return Err(IndexTruncated); }
      images := images + [DefImage(name.value, 0)];
      pos := name.next;
      j := j + 1;
    }
    r := Ok(images);
  }

  /** The offset table of a block, stored in the entries read by ReadNameTable, by position. */
  method ReadOffsetTable(data: seq<byte>, q: nat, names: seq<DefImage>) returns (r: Result<seq<DefImage>, DefError>)
    requires |names| > 0 ==> q <= |data|
    ensures r.Ok? <==> |names| == 0 || q + 4 * |names| <= |data|
    ensures r.Err? ==> r.error == IndexTruncated
    ensures r.Ok? ==> |r.value| == |names| && forall i :: 0 <= i < |names| ==>
      r.value[i] == names[i].(offset := Uint32At(data, q + 4 * i))
  {
    var images := names;
    var pos := q;
    var j := 0;
    while j < |names|
      invariant 0 <= j <= |names|
      invariant pos == q + 4 * j
      invariant |names| > 0 ==> pos <= |data|
      invariant |images| == |names|
      invariant forall i :: 0 <= i < j ==> images[i] == names[i].(offset := Uint32At(data, q + 4 * i))
      invariant forall i :: j <= i < |names| ==> images[i] == names[i]
    {
      var offset := ReadUint32(data, pos);
      if offset.ShortRead? { return Err(IndexTruncated); }
      images := images[j := images[j].(offset := offset.value)];
      pos := offset.next;
      j := j + 1;
    }
    r := Ok(images);
  }

  /** One iteration of the outer loop of readDefBlocksMeta: names first, then offsets. */
  method ReadDefBlock(data: seq<byte>, p: nat) returns (r: Result<(DefBlockMeta, nat), DefError>)
    ensures r.Ok? <==> BlockAt(data, p).Some?
    ensures r.Ok? ==> r.value == BlockAt(data, p).value
    ensures r.Err? ==> r.error == IndexTruncated
  {
    var blockId := ReadUint32(data, p);
    if blockId.ShortRead? { return Err(IndexTruncated); }
    var filesCount := ReadUint32(data, blockId.next);
    if filesCount.ShortRead? { return Err(IndexTruncated); }
    var count := filesCount.value;
    var pos := filesCount.next + 8;
    var names := ReadNameTable(data, pos, count);
    if names.Err? { return Err(IndexTruncated); }
    var images := ReadOffsetTable(data, pos + 13 * count, names.value);
    if images.Err? { return Err(IndexTruncated); }
    ImagesFromTables(data, p + 16, count, names.value, images.value);
    r := Ok((DefBlockMeta(blockId.value, images.value), pos + 17 * count));
  }

  /** The frame entries read table by table are the entries ImagesAt describes. */
  lemma ImagesFromTables(data: seq<byte>, q: nat, count: nat, names: seq<DefImage>, images: seq<DefImage>)
    requires count == 0 || q + 13 * count + 4 * count <= |data|
    requires |names| == count && forall i :: 0 <= i < count ==>
      names[i] == DefImage(FieldName(data[q + 13 * i .. q + 13 * i + 13]), 0)
    requires |images| == count && forall i :: 0 <= i < count ==>
      images[i] == names[i].(offset := Uint32At(data, q + 13 * count + 4 * i))
    ensures images == ImagesAt(data, q, count)
  {
    var expected := ImagesAt(data, q, count);
    forall i | 0 <= i < count
      ensures images[i] == expected[i]
    {
      assert expected[i] == ImageAt(data, q, count, i);
    }
  }

  function PrependBlocks(bs: seq<DefBlockMeta>, rest: Option<seq<DefBlockMeta>>): Option<seq<DefBlockMeta>>
  {
    match rest
    case None => None
    case Some(more) => Some(bs + more)
  }

  /** readDefBlocksMeta: seeks to offset 784 and reads `defBlocks` block entries. */
  method ReadDefBlocksMeta(data: seq<byte>, defBlocks: u32) returns (r: Result<seq<DefBlockMeta>, DefError>)
    ensures r.Ok? <==> BlocksFrom(data, BlocksOffset, defBlocks).Some?
    ensures r.Ok? ==> r.value == BlocksFrom(data, BlocksOffset, defBlocks).value && |r.value| == defBlocks
    ensures r.Err? ==> r.error == IndexTruncated
  {
    var pos := BlocksOffset;
    var blocks: seq<DefBlockMeta> := [];
    var i := 0;
    assert BlocksFrom(data, pos, defBlocks).Some? ==> [] + BlocksFrom(data, pos, defBlocks).value == BlocksFrom(data, pos, defBlocks).value;
    while i < defBlocks
      invariant 0 <= i <= defBlocks
      invariant BlocksFrom(data, BlocksOffset, defBlocks) == PrependBlocks(blocks, BlocksFrom(data, pos, defBlocks - i))
    {
      var block := ReadDefBlock(data, pos);
      if block.Err? { return Err(IndexTruncated); }
      ghost var rest := BlocksFrom(data, block.value.1, defBlocks - i - 1);
      assert BlocksFrom(data, pos, defBlocks - i) == PrependBlocks([block.value.0], rest);
      assert rest.Some? ==> blocks + ([block.value.0] + rest.value) == (blocks + [block.value.0]) + rest.value;
      blocks := blocks + [block.value.0];
      pos := block.value.1;
      i := i + 1;
    }
    r := Ok(blocks);
  }

  // -------------------------------------------------------- frame metadata

  /** The 32-byte frame record at p: six u32 values, then two i32 margins. */
  function ImageMetaAt(data: seq<byte>, p: nat): ImageMeta
    requires p + 32 <= |data|
  {
    ImageMeta(Uint32At(data, p), Uint32At(data, p + 4), Uint32At(data, p + 8), Uint32At(data, p + 12),
              Uint32At(data, p + 16), Uint32At(data, p + 20),
              ToInt32(Uint32At(data, p + 24)), ToInt32(Uint32At(data, p + 28)))
  }

  /** readImageMeta: eight consecutive reads; no validation. */
  method ReadImageMeta(data: seq<byte>, pos: nat) returns (r: Result<(ImageMeta, nat), DefError>)
    ensures r.Ok? <==> pos + 32 <= |data|
    ensures r.Err? ==> r.error == ImageMetaTruncated
    ensures r.Ok? ==> r.value == (ImageMetaAt(data, pos), pos + 32)
  {
    var size := ReadUint32(data, pos);
    if size.ShortRead? { return Err(ImageMetaTruncated); }
    var format := ReadUint32(data, size.next);
    if format.ShortRead? { return Err(ImageMetaTruncated); }
    var fullWidth := ReadUint32(data, format.next);
    if fullWidth.ShortRead? { return Err(ImageMetaTruncated); }
    var fullHeight := ReadUint32(data, fullWidth.next);
    if fullHeight.ShortRead? { return Err(ImageMetaTruncated); }
    var width := ReadUint32(data, fullHeight.next);
    if width.ShortRead? { return Err(ImageMetaTruncated); }
    var height := ReadUint32(data, width.next);
    if height.ShortRead? { return Err(ImageMetaTruncated); }
    var leftMargin := ReadInt32(data, height.next);
    if leftMargin.ShortRead? { return Err(ImageMetaTruncated); }
    var topMargin := ReadInt32(data, leftMargin.next);
    if topMargin.ShortRead? { return Err(ImageMetaTruncated); }
    r := Ok((ImageMeta(size.value, format.value, fullWidth.value, fullHeight.value,
                       width.value, height.value, leftMargin.value, topMargin.value), topMargin.next));
  }

  // -------------------------------------------------------- reconciliation

  /** The margin test of the extraction loop: a signed comparison against the
    * full size converted to int32 (which wraps for sizes of 2^31 and more). */
  predicate MarginsFit(m: ImageMeta)
  {
    !(m.leftMargin > ToInt32(m.fullWidth) || m.topMargin > ToInt32(m.fullHeight))
  }

  /** The state the extraction loop carries past one frame. */
  datatype Reconciled = Reconciled(firstW: u32, firstH: u32, format: u32, meta: ImageMeta)

  /** The rules applied to one frame: margin check, canonical size (fixed by the
    * first frame of the block, later frames enlarged to it or rejected), and the
    * file-wide format check. */
  function ReconcileFrame(firstW: u32, firstH: u32, format: u32, m: ImageMeta): (r: Result<Reconciled, DefError>)
    ensures r == Err(MarginsOutOfBounds) <==> !MarginsFit(m)
    ensures r.Ok? <==>
      && MarginsFit(m)
      && ((firstW == Unset && firstH == Unset) || (m.fullWidth <= firstW && m.fullHeight <= firstH))
      && (format == Unset || format == m.format)
    ensures MarginsFit(m) && !(firstW == Unset && firstH == Unset) && m.fullWidth > firstW ==>
      r == Err(WidthGreaterThanFirst)
    ensures r.Ok? ==> r.value.meta == m.(fullWidth := r.value.meta.fullWidth, fullHeight := r.value.meta.fullHeight)
    ensures r.Ok? && firstW == Unset && firstH == Unset ==>
      r.value.meta == m && r.value.firstW == m.fullWidth && r.value.firstH == m.fullHeight
    ensures r.Ok? && !(firstW == Unset && firstH == Unset) ==>
      && r.value.firstW == firstW && r.value.firstH == firstH
      && r.value.meta.fullWidth == firstW && r.value.meta.fullHeight == firstH
    ensures r.Ok? ==> r.value.format == m.format
  {
    if !MarginsFit(m) then Err(MarginsOutOfBounds)
    else if firstW == Unset && firstH == Unset then
      if format == Unset || format == m.format then Ok(Reconciled(m.fullWidth, m.fullHeight, m.format, m))
      else Err(FormatDiffers)
    else
      var w := if firstW > m.fullWidth then firstW else m.fullWidth;
      var h := if firstH > m.fullHeight then firstH else m.fullHeight;
      if w > firstW then Err(WidthGreaterThanFirst)
      else if h > firstH then Err(HeightGreaterThanFirst)
      else if format == Unset || format == m.format then
        Ok(Reconciled(firstW, firstH, m.format, m.(fullWidth := w, fullHeight := h)))
      else Err(FormatDiffers)
  }

  /** A frame with no pixels becomes an empty 0x0 image. */
  function FrameOf(m: ImageMeta): (f: Frame)
    ensures f.EmptyImage? <==> m.width == 0 || m.height == 0
    ensures f.Image? ==> f.meta == m
  {
    if m.width != 0 && m.height != 0 then Image(m) else EmptyImage
  }

  /** Frames i.. of one block, given the block's canonical size and the file's format so far;
    * the result carries the format after the last frame. */
  function FramesFrom(data: seq<byte>, images: seq<DefImage>, i: nat, firstW: u32, firstH: u32, format: u32)
    : (r: Result<(seq<Frame>, u32), DefError>)
    requires i <= |images|
    ensures r.Ok? ==> |r.value.0| == |images| - i
    decreases |images| - i
  {
    if i == |images| then Ok(([], format))
    else if images[i].offset + 32 > |data| then Err(ImageMetaTruncated)
    else match ReconcileFrame(firstW, firstH, format, ImageMetaAt(data, images[i].offset))
      case Err(e) => Err(e)
      case Ok(rc) =>
        match FramesFrom(data, images, i + 1, rc.firstW, rc.firstH, rc.format)
        case Err(e) => Err(e)
        case Ok((fs, f)) => Ok(([FrameOf(rc.meta)] + fs, f))
  }

  /** Blocks b.. of the file: each block starts with an unset canonical size,
    * while the format carries over from block to block. */
  function ContentFrom(data: seq<byte>, blocks: seq<DefBlockMeta>, b: nat, format: u32)
    : (r: Result<(seq<seq<Frame>>, u32), DefError>)
    requires b <= |blocks|
    ensures r.Ok? ==> |r.value.0| == |blocks| - b
    decreases |blocks| - b
  {
    if b == |blocks| then Ok(([], format))
    else match FramesFrom(data, blocks[b].defImages, 0, Unset, Unset, format)
      case Err(e) => Err(e)
      case Ok((fs, f)) =>
        match ContentFrom(data, blocks, b + 1, f)
        case Err(e) => Err(e)
        case Ok((bs, f')) => Ok(([fs] + bs, f'))
  }

  function PrependFrames(acc: seq<Frame>, rest: Result<(seq<Frame>, u32), DefError>): Result<(seq<Frame>, u32), DefError>
  {
    match rest
    case Err(e) => Err(e)
    case Ok((fs, f)) => Ok((acc + fs, f))
  }

  function PrependContent(acc: seq<seq<Frame>>, rest: Result<(seq<seq<Frame>>, u32), DefError>)
    : Result<(seq<seq<Frame>>, u32), DefError>
  {
    match rest
    case Err(e) => Err(e)
    case Ok((bs, f)) => Ok((acc + bs, f))
  }

  /** Lines 209-239 of extractBlocksContent, written as the source does them. */
  method ReconcileStep(firstW: u32, firstH: u32, format0: u32, meta: ImageMeta) returns (r: Result<Reconciled, DefError>)
    ensures r == ReconcileFrame(firstW, firstH, format0, meta)
  {
    var imgMeta := meta;
    var firstFullWidth, firstFullHeight, format := firstW, firstH, format0;
    if imgMeta.leftMargin > ToInt32(imgMeta.fullWidth) || imgMeta.topMargin > ToInt32(imgMeta.fullHeight) {
      return Err(MarginsOutOfBounds);
    }
    if firstFullWidth == Unset && firstFullHeight == Unset {
      firstFullWidth := imgMeta.fullWidth;
      firstFullHeight := imgMeta.fullHeight;
    } else {
      if firstFullWidth > imgMeta.fullWidth {
        imgMeta := imgMeta.(fullWidth := firstFullWidth);   // enlarge image width
      }
      if firstFullHeight > imgMeta.fullHeight {
        imgMeta := imgMeta.(fullHeight := firstFullHeight); // enlarge image height
      }
      if imgMeta.fullWidth > firstFullWidth {
        return Err(WidthGreaterThanFirst);
      }
      if imgMeta.fullHeight > firstFullHeight {
        return Err(HeightGreaterThanFirst);
      }
    }
    if format == Unset {
      format := imgMeta.format;
    } else if format != imgMeta.format {
      return Err(FormatDiffers);
    }
    r := Ok(Reconciled(firstFullWidth, firstFullHeight, format, imgMeta));
  }

  /** The inner loop of extractBlocksContent over one block's frames. */
  method ExtractBlockFrames(data: seq<byte>, images: seq<DefImage>, format0: u32)
    returns (r: Result<(seq<Frame>, u32), DefError>)
    ensures r == FramesFrom(data, images, 0, Unset, Unset, format0)
  {
    var firstFullWidth: u32, firstFullHeight: u32 := Unset, Unset;
    var format := format0;
    var frames: seq<Frame> := [];
    var j := 0;
    ghost var all := FramesFrom(data, images, 0, Unset, Unset, format0);
    assert all.Ok? ==> [] + all.value.0 == all.value.0;
    while j < |images|
      invariant 0 <= j <= |images|
      invariant FramesFrom(data, images, 0, Unset, Unset, format0)
        == PrependFrames(frames, FramesFrom(data, images, j, firstFullWidth, firstFullHeight, format))
    {
      var di := images[j];
      var read := ReadImageMeta(data, di.offset);
      if read.Err? { return Err(read.error); }
      var step := ReconcileStep(firstFullWidth, firstFullHeight, format, read.value.0);
      if step.Err? { return Err(step.error); }
      firstFullWidth, firstFullHeight, format := step.value.firstW, step.value.firstH, step.value.format;
      var imgMeta := step.value.meta;
      ghost var rest := FramesFrom(data, images, j + 1, firstFullWidth, firstFullHeight, format);
      assert rest.Ok? ==> frames + ([FrameOf(imgMeta)] + rest.value.0) == (frames + [FrameOf(imgMeta)]) + rest.value.0;
      frames := frames + [FrameOf(imgMeta)];
      j := j + 1;
    }
    assert frames + [] == frames;
    r := Ok((frames, format));
  }

  /** extractBlocksContent (lines 183-250): the block loop with its per-frame
    * rules; the format sentinel is set once, outside the block loop. */
  method ExtractBlocksContent(data: seq<byte>, blocks: seq<DefBlockMeta>)
    returns (r: Result<(seq<seq<Frame>>, u32), DefError>)
    ensures r == ContentFrom(data, blocks, 0, Unset)
  {
    var format := Unset;
    var content: seq<seq<Frame>> := [];
    var b := 0;
    ghost var all := ContentFrom(data, blocks, 0, Unset);
    assert all.Ok? ==> [] + all.value.0 == all.value.0;
    while b < |blocks|
      invariant 0 <= b <= |blocks|
      invariant ContentFrom(data, blocks, 0, Unset) == PrependContent(content, ContentFrom(data, blocks, b, format))
    {
      var frames := ExtractBlockFrames(data, blocks[b].defImages, format);
      if frames.Err? { return Err(frames.error); }
      ghost var rest := ContentFrom(data, blocks, b + 1, frames.value.1);
      assert rest.Ok? ==> content + ([frames.value.0] + rest.value.0) == (content + [frames.value.0]) + rest.value.0;
      content := content + [frames.value.0];
      format := frames.value.1;
      b := b + 1;
    }
    assert content + [] == content;
    r := Ok((content, format));
  }

  // ------------------------------------------------------------- pipeline

  /** Everything ExtractDef derives from one DEF file before pixel decoding. */
  datatype DefContent = DefContent(
    header: DefHeader, palette: seq<Rgba>, blocks: seq<DefBlockMeta>,
    frames: seq<seq<Frame>>, format: u32)

  /** The palette stored at pos: 256 RGB triples, each opaque. */
  function PaletteAt(data: seq<byte>, pos: nat): (r: seq<Rgba>)
    requires pos + 768 <= |data|
    ensures |r| == 256
    ensures forall i :: 0 <= i < 256 ==> r[i] == Rgba(data[pos + 3 * i], data[pos + 3 * i + 1], data[pos + 3 * i + 2], 255)
  {
    seq(256, i requires 0 <= i < 256 => Rgba(data[pos + 3 * i], data[pos + 3 * i + 1], data[pos + 3 * i + 2], 255))
  }

  /** What ExtractDef derives from a DEF file: the header at 0, the palette
    * after it, the block index at 784 (whose size the header's block count
    * gives), then the frames of every block. */
  function DefContentAt(data: seq<byte>): (r: Result<DefContent, DefError>)
    ensures |data| < 16 ==> r == Err(HeaderTruncated)
    ensures 16 <= |data| < BlocksOffset ==> r == Err(PaletteTruncated)
  {
    if |data| < 16 then Err(HeaderTruncated)
    else if |data| < BlocksOffset then Err(PaletteTruncated)
    else
      var header := DefHeader(Uint32At(data, 0), Uint32At(data, 4), Uint32At(data, 8), Uint32At(data, 12));
      match BlocksFrom(data, BlocksOffset, header.blocks)
      case None => Err(IndexTruncated)
      case Some(blocks) =>
        match ContentFrom(data, blocks, 0, Unset)
        case Err(e) => Err(e)
        case Ok((frames, format)) => Ok(DefContent(header, PaletteAt(data, 16), blocks, frames, format))
  }

  /** A file long enough for its header and palette is accepted exactly when
    * its block index reads and every frame passes the extraction loop's
    * checks; what is accepted is the header, the palette, the index and the
    * frames, each as stored. */
  lemma DefContentFacts(data: seq<byte>)
    ensures |data| >= BlocksOffset ==>
      (DefContentAt(data).Ok? <==>
        && BlocksFrom(data, BlocksOffset, Uint32At(data, 12)).Some?
        && ContentFrom(data, BlocksFrom(data, BlocksOffset, Uint32At(data, 12)).value, 0, Unset).Ok?)
    ensures DefContentAt(data).Ok? ==>
      var c := DefContentAt(data).value;
      && |data| >= BlocksOffset
      && c.header == DefHeader(Uint32At(data, 0), Uint32At(data, 4), Uint32At(data, 8), Uint32At(data, 12))
      && |c.palette| == 256
      && (forall i :: 0 <= i < 256 ==> c.palette[i] == Rgba(data[16 + 3 * i], data[17 + 3 * i], data[18 + 3 * i], 255))
      && BlocksFrom(data, BlocksOffset, c.header.blocks) == Some(c.blocks)
      && ContentFrom(data, c.blocks, 0, Unset) == Ok((c.frames, c.format))
  {
  }

  /** ExtractDef: header at 0, palette right after it, block index at 784, then the frame loop. */
  method ExtractDef(data: seq<byte>) returns (r: Result<DefContent, DefError>)
    ensures r == DefContentAt(data)
  {
    var header := ReadDefMeta(data, 0);
    if header.Err? { return Err(header.error); }
    var palette := ReadDefPalette(data, header.value.1);
    if palette.Err? { return Err(palette.error); }
    assert palette.value.0 == PaletteAt(data, 16);
    var blocks := ReadDefBlocksMeta(data, header.value.0.blocks);
    if blocks.Err? { return Err(blocks.error); }
    var content := ExtractBlocksContent(data, blocks.value);
    if content.Err? { return Err(content.error); }
    r := Ok(DefContent(header.value.0, palette.value.0, blocks.value, content.value.0, content.value.1));
  }

  // ---------------------------------------------------------------- lemmas

  /** Once a block's canonical size is set it never changes: every later frame
    * declared margins that fit and a full size no larger than it, and is drawn
    * at exactly that size. */
  lemma {:induction false} FramesKeepCanonicalSize(
    data: seq<byte>, images: seq<DefImage>, i: nat, firstW: u32, firstH: u32, format: u32)
    requires i <= |images|
    requires !(firstW == Unset && firstH == Unset)
    requires FramesFrom(data, images, i, firstW, firstH, format).Ok?
    ensures forall k :: i <= k < |images| ==>
      && images[k].offset + 32 <= |data|
      && MarginsFit(ImageMetaAt(data, images[k].offset))
      && ImageMetaAt(data, images[k].offset).fullWidth <= firstW
      && ImageMetaAt(data, images[k].offset).fullHeight <= firstH
    ensures var fs := FramesFrom(data, images, i, firstW, firstH, format).value.0;
      forall k :: 0 <= k < |fs| && fs[k].Image? ==>
        fs[k].meta.fullWidth == firstW && fs[k].meta.fullHeight == firstH
    decreases |images| - i
  {
    if i < |images| {
      var rc := ReconcileFrame(firstW, firstH, format, ImageMetaAt(data, images[i].offset)).value;
      FramesKeepCanonicalSize(data, images, i + 1, firstW, firstH, rc.format);
    }
  }

  /** The first frame of a block fixes the block's canonical size: a block that
    * extracts has every frame drawn at the first frame's full size, and no later
    * frame declared a larger one. (When the first frame itself declares the
    * sentinel size 99999x99999 the source treats the next frame as first again.) */
  lemma BlockCanonicalSize(data: seq<byte>, images: seq<DefImage>, format: u32)
    requires |images| > 0
    requires FramesFrom(data, images, 0, Unset, Unset, format).Ok?
    ensures images[0].offset + 32 <= |data|
    ensures var m0 := ImageMetaAt(data, images[0].offset);
      var fs := FramesFrom(data, images, 0, Unset, Unset, format).value.0;
      !(m0.fullWidth == Unset && m0.fullHeight == Unset) ==>
        && (forall k :: 0 <= k < |fs| && fs[k].Image? ==>
              fs[k].meta.fullWidth == m0.fullWidth && fs[k].meta.fullHeight == m0.fullHeight)
        && (forall k :: 0 < k < |images| ==>
              images[k].offset + 32 <= |data|
              && ImageMetaAt(data, images[k].offset).fullWidth <= m0.fullWidth
              && ImageMetaAt(data, images[k].offset).fullHeight <= m0.fullHeight)
  {
    var m0 := ImageMetaAt(data, images[0].offset);
    var rc := ReconcileFrame(Unset, Unset, format, m0).value;
    if !(m0.fullWidth == Unset && m0.fullHeight == Unset) {
      FramesKeepCanonicalSize(data, images, 1, m0.fullWidth, m0.fullHeight, rc.format);
    }
  }

  /** Once the file's format is set, every later frame of the block has that format. */
  lemma {:induction false} FramesKeepFormat(
    data: seq<byte>, images: seq<DefImage>, i: nat, firstW: u32, firstH: u32, format: u32)
    requires i <= |images|
    requires format != Unset
    requires FramesFrom(data, images, i, firstW, firstH, format).Ok?
    ensures FramesFrom(data, images, i, firstW, firstH, format).value.1 == format
    ensures var fs := FramesFrom(data, images, i, firstW, firstH, format).value.0;
      forall k :: 0 <= k < |fs| && fs[k].Image? ==> fs[k].meta.format == format
    ensures forall k :: i <= k < |images| ==>
      images[k].offset + 32 <= |data| && ImageMetaAt(data, images[k].offset).format == format
    decreases |images| - i
  {
    if i < |images| {
      var rc := ReconcileFrame(firstW, firstH, format, ImageMetaAt(data, images[i].offset)).value;
      FramesKeepFormat(data, images, i + 1, rc.firstW, rc.firstH, format);
    }
  }

  /** ... and so does every frame of every later block. */
  lemma {:induction false} ContentKeepsFormat(data: seq<byte>, blocks: seq<DefBlockMeta>, b: nat, format: u32)
    requires b <= |blocks|
    requires format != Unset
    requires ContentFrom(data, blocks, b, format).Ok?
    ensures ContentFrom(data, blocks, b, format).value.1 == format
    ensures var bs := ContentFrom(data, blocks, b, format).value.0;
      forall j, k :: 0 <= j < |bs| && 0 <= k < |bs[j]| && bs[j][k].Image? ==> bs[j][k].meta.format == format
    decreases |blocks| - b
  {
    if b < |blocks| {
      FramesKeepFormat(data, blocks[b].defImages, 0, Unset, Unset, format);
      ContentKeepsFormat(data, blocks, b + 1, format);
      var bs := ContentFrom(data, blocks, b, format).value.0;
      var fs := FramesFrom(data, blocks[b].defImages, 0, Unset, Unset, format).value.0;
      assert bs == [fs] + ContentFrom(data, blocks, b + 1, format).value.0;
    }
  }

  /** The pixel format is fixed by the very first frame of the file, across all
    * blocks (the sentinel lives outside the block loop). */
  lemma FileFormatFixedByFirstFrame(data: seq<byte>, blocks: seq<DefBlockMeta>)
    requires |blocks| > 0 && |blocks[0].defImages| > 0
    requires ContentFrom(data, blocks, 0, Unset).Ok?
    ensures blocks[0].defImages[0].offset + 32 <= |data|
    ensures var f0 := ImageMetaAt(data, blocks[0].defImages[0].offset).format;
      var bs := ContentFrom(data, blocks, 0, Unset).value.0;
      f0 != Unset ==>
        && ContentFrom(data, blocks, 0, Unset).value.1 == f0
        && forall j, k :: 0 <= j < |bs| && 0 <= k < |bs[j]| && bs[j][k].Image? ==> bs[j][k].meta.format == f0
  {
    var images := blocks[0].defImages;
    var m0 := ImageMetaAt(data, images[0].offset);
    if m0.format != Unset {
      var rc := ReconcileFrame(Unset, Unset, Unset, m0).value;
      FramesKeepFormat(data, images, 1, rc.firstW, rc.firstH, m0.format);
      var fs := FramesFrom(data, images, 0, Unset, Unset, Unset).value;
      assert fs.1 == m0.format;
      ContentKeepsFormat(data, blocks, 1, m0.format);
    }
  }
}
