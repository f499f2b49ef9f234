/** lodparse: reading a LOD archive's header and its file table, all words
  * unsigned 32-bit. */
module LodparseArchiveParser {
  import opened Results
  import opened BinRead
  import opened LodFormat
  import opened LodparseArchiveType

  datatype LodFileMeta = LodFileMeta(name: seq<byte>, offset: u32, originalSize: u32, compressedSize: u32)

  /** A stored file is compressed exactly when its compressed size is not zero. */
  predicate IsCompressed(f: LodFileMeta)
  {
    f.compressedSize != 0
  }

  datatype LodArchiveMeta = LodArchiveMeta(lodType: LodArchiveType, numberOfFiles: u32, files: seq<LodFileMeta>)

  /** The file record stored at p: the name field's text, then offset and
    * original size, a skipped word, then the compressed size. */
  function RecordAt(data: seq<byte>, p: nat): LodFileMeta
    requires p + RecordSize <= |data|
  {
    LodFileMeta(FieldName(data[p .. p + 16]), Uint32At(data, p + 16), Uint32At(data, p + 20), Uint32At(data, p + 28))
  }

  /** One iteration of readLodFiles. */
  method ReadRecord(data: seq<byte>, p: nat) returns (r: Reading<LodFileMeta>)
    ensures r.Read? <==> p + RecordSize <= |data|
    ensures r.Read? ==> r.value == RecordAt(data, p) && r.next == p + RecordSize
  {
    var name := ReadAvailableChars(data, p, 16);
    if name.ShortRead? { return ShortRead; }
    var offset := ReadUint32(data, name.next);
    if offset.ShortRead? { return ShortRead; }
    var originalSize := ReadUint32(data, offset.next);
    if originalSize.ShortRead? { return ShortRead; }
    var cur := originalSize.next + 4;
    var compressedSize := ReadUint32(data, cur);
    if compressedSize.ShortRead? { return ShortRead; }
    r := Read(LodFileMeta(name.value, offset.value, originalSize.value, compressedSize.value), compressedSize.next);
  }

  /** readLodFiles: numberOfFiles consecutive records from pos. */
  method ReadLodFiles(data: seq<byte>, pos: nat, numberOfFiles: u32) returns (r: Result<seq<LodFileMeta>, LodError>)
    ensures r.Ok? <==> numberOfFiles == 0 || pos + RecordSize * numberOfFiles <= |data|
    ensures r.Ok? ==> |r.value| == numberOfFiles
    ensures r.Ok? ==> forall i :: 0 <= i < numberOfFiles ==> r.value[i] == RecordAt(data, pos + RecordSize * i)
    ensures r.Err? ==> r.error.RecordTruncated? && r.error.index < numberOfFiles
    ensures r.Err? ==> TruncatedAt(data, pos, r.error.index)
  {
    var lodFiles: seq<LodFileMeta> := [];
    var cur := pos;
    var fi := 0;
    while fi < numberOfFiles
      invariant 0 <= fi <= numberOfFiles
      invariant cur == pos + RecordSize * fi
      invariant fi > 0 ==> cur <= |data|
      invariant |lodFiles| == fi
      invariant forall i :: 0 <= i < fi ==> lodFiles[i] == RecordAt(data, pos + RecordSize * i)
    {
      var lodFile := ReadRecord(data, cur);
      if lodFile.ShortRead? {
        return Err(RecordTruncated(fi));
      }
      lodFiles := lodFiles + [lodFile.value];
      cur := lodFile.next;
      fi := fi + 1;
    }
    r := Ok(lodFiles);
  }

  /** parseLodFile: header, non-empty count, 80 skipped bytes, then the records. */
  method ParseLodFile(data: seq<byte>) returns (r: Result<LodArchiveMeta, LodError>)
    ensures |data| < 4 ==> r == Err(HeaderUnreadable)
    ensures 4 <= |data| && !HasMagic(data) ==> r == Err(WrongHeader)
    ensures HasMagic(data) && |data| < 8 ==> r == Err(TypeUnreadable)
    ensures HasMagic(data) && 8 <= |data| < 12 ==> r == Err(CountUnreadable)
    ensures HasMagic(data) && 12 <= |data| && Uint32At(data, 8) == 0 ==> r == Err(EmptyArchive)
    ensures r.Ok? <==>
      (HasMagic(data) && 12 <= |data| && Uint32At(data, 8) != 0 &&
       RecordsStart + RecordSize * Uint32At(data, 8) <= |data|)
    ensures r.Ok? ==> r.value.lodType == Uint32At(data, 4) && r.value.numberOfFiles == Uint32At(data, 8)
    ensures r.Ok? ==> |r.value.files| == r.value.numberOfFiles
    ensures r.Ok? ==> forall i :: 0 <= i < |r.value.files| ==>
      r.value.files[i] == RecordAt(data, RecordsStart + RecordSize * i)
  {
    var header := ReadHeader(data);
    if header.Err? { return Err(header.error); }
    if header.value.numberOfFiles == 0 { return Err(EmptyArchive); }
    var cur := 12 + 80;
    var files := ReadLodFiles(data, cur, header.value.numberOfFiles);
    if files.Err? { return Err(files.error); }
    r := Ok(LodArchiveMeta(header.value.lodType, header.value.numberOfFiles, files.value));
  }

  /** The 32 bytes that store a record; the skipped word is given as `unknown`. */
  function EncodeRecord(f: LodFileMeta, unknown: u32): (s: seq<byte>)
    requires |f.name| < 16
    ensures |s| == RecordSize
  {
    EncodeName(f.name) + EncodeUint32(f.offset) + EncodeUint32(f.originalSize) + EncodeUint32(unknown) + EncodeUint32(f.compressedSize)
  }

  /** Reading a stored record gives back the record, whatever the skipped word
    * holds, when its name is zero-free and shorter than the field. */
  lemma RecordRoundTrip(f: LodFileMeta, unknown: u32, prefix: seq<byte>, suffix: seq<byte>)
    requires |f.name| < 16 && 0 !in f.name
    ensures |prefix| + RecordSize <= |prefix + EncodeRecord(f, unknown) + suffix|
    ensures RecordAt(prefix + EncodeRecord(f, unknown) + suffix, |prefix|) == f
  {
    var e := EncodeRecord(f, unknown);
    var data := prefix + e + suffix;
    var p := |prefix|;
    assert data[p .. p + 32] == e;
    assert data[p .. p + 16] == EncodeName(f.name);
    EncodeNameRoundTrip(f.name);
    assert data[p + 16 .. p + 20] == EncodeUint32(f.offset);
    assert data[p + 20 .. p + 24] == EncodeUint32(f.originalSize);
    assert data[p + 28 .. p + 32] == EncodeUint32(f.compressedSize);
    DecodeEncodeUint32(f.offset);
    DecodeEncodeUint32(f.originalSize);
    DecodeEncodeUint32(f.compressedSize);
    UintAtSlice(data, p + 16);
    UintAtSlice(data, p + 20);
    UintAtSlice(data, p + 28);
  }

  /** A word read in place equals the word read from its own 4-byte slice. */
  lemma UintAtSlice(data: seq<byte>, p: nat)
    requires p + 4 <= |data|
    ensures Uint32At(data, p) == Uint32At(data[p .. p + 4], 0)
  {
  }
}
