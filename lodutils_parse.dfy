/** lodutils/lodparse, lod_parser.go: the same archive layout read as signed
  * 32-bit words into LodArchive / LodFile values. */
module LodutilsParse {
  import opened Results
  import opened BinRead
  import opened LodFormat
  import opened LodutilsArchiveType
  import opened Extraction

  datatype LodFile = LodFile(name: seq<byte>, offset: i32, originalSize: i32, compressedSize: i32)

  /** LodFile.IsCompressed: a non-zero compressed size. */
  predicate IsCompressed(f: LodFile)
  {
    f.compressedSize != 0
  }

  datatype LodArchive = LodArchive(lodType: LodArchiveType, numberOfFiles: i32, files: seq<LodFile>)

  /** readLodArchiveFileName: one os.File.Read into a 16-byte buffer, cut at
    * its first zero byte. It fails only at end of file; with fewer than 16
    * bytes left it names the zero-padded rest and stops at end of file. */
  method ReadLodArchiveFileName(data: seq<byte>, pos: nat) returns (r: Reading<seq<byte>>)
    ensures r.Read? <==> pos < |data|
    ensures r.Read? ==> r.value == FieldName(ReadBuffer(data, pos, 16).value) && r.next == Min(pos + 16, |data|)
    ensures pos + 16 <= |data| ==> r == Read(FieldName(data[pos .. pos + 16]), pos + 16)
  {
    var nameBuf := ReadBuffer(data, pos, 16);
    if nameBuf.None? { return ShortRead; }
    var nameLen := NameLength(nameBuf.value);
    ghost var name := FieldName(nameBuf.value);
    if 0 in nameBuf.value {
      FirstZeroUnique(nameBuf.value, nameLen, |name|);
    }
    r := Read(nameBuf.value[..nameLen], Min(pos + 16, |data|));
    if pos + 16 <= |data| {
      ReadBufferInside(data, pos, 16);
    }
  }

  /** The file record stored at p, its words read as int32. */
  function RecordAt(data: seq<byte>, p: nat): LodFile
    requires p + RecordSize <= |data|
  {
    LodFile(FieldName(data[p .. p + 16]), ToInt32(Uint32At(data, p + 16)),
            ToInt32(Uint32At(data, p + 20)), ToInt32(Uint32At(data, p + 28)))
  }

  /** One iteration of readLodFiles. */
  method ReadRecord(data: seq<byte>, p: nat) returns (r: Reading<LodFile>)
    ensures r.Read? <==> p + RecordSize <= |data|
    ensures r.Read? ==> r.value == RecordAt(data, p) && r.next == p + RecordSize
  {
    var name := ReadLodArchiveFileName(data, p);
    if name.ShortRead? { return ShortRead; }
    var offset := ReadInt32(data, name.next);
    if offset.ShortRead? { return ShortRead; }
    var originalSize := ReadInt32(data, offset.next);
    if originalSize.ShortRead? { return ShortRead; }
    var cur := originalSize.next + 4;
    var compressedSize := ReadInt32(data, cur);
    if compressedSize.ShortRead? { return ShortRead; }
    r := Read(LodFile(name.value, offset.value, originalSize.value, compressedSize.value), compressedSize.next);
  }

  /** readLodFiles: a negative count is a negative slice capacity, which
    * panics; otherwise numberOfFiles consecutive records from pos. */
  method ReadLodFiles(data: seq<byte>, pos: nat, numberOfFiles: i32) returns (r: Result<seq<LodFile>, LodError>)
    ensures numberOfFiles < 0 ==> r == Err(NegativeCapacity)
    ensures r.Ok? <==> numberOfFiles == 0 || (numberOfFiles > 0 && pos + RecordSize * numberOfFiles <= |data|)
    ensures r.Ok? ==> |r.value| == numberOfFiles
    ensures r.Ok? ==> forall i :: 0 <= i < numberOfFiles ==> r.value[i] == RecordAt(data, pos + RecordSize * i)
    ensures r.Err? && numberOfFiles > 0 ==> r.error.RecordTruncated? && r.error.index < numberOfFiles
    ensures r.Err? && numberOfFiles > 0 ==> TruncatedAt(data, pos, r.error.index)
  {
    if numberOfFiles < 0 {
      return Err(NegativeCapacity);
    }
    var lodFiles: seq<LodFile> := [];
    var cur := pos;
    var fi := 0;
    while fi < numberOfFiles
      invariant 0 <= fi <= numberOfFiles
      invariant cur == pos + RecordSize * fi
      invariant fi > 0 ==> cur <= |data|
      invariant |lodFiles| == fi
      invariant forall i :: 0 <= i < fi ==> lodFiles[i] == RecordAt(data, pos + RecordSize * i)
    {
      var lodFile := ReadRecord(data, cur);
      if lodFile.ShortRead? {
        return Err(RecordTruncated(fi));
      }
      lodFiles := lodFiles + [lodFile.value];
      cur := lodFile.next;
      fi := fi + 1;
    }
    r := Ok(lodFiles);
  }

  /** ParseLodFile: header, non-zero count, 80 skipped bytes, then the records. */
  method ParseLodFile(data: seq<byte>) returns (r: Result<LodArchive, LodError>)
    ensures |data| < 4 ==> r == Err(HeaderUnreadable)
    ensures 4 <= |data| && !HasMagic(data) ==> r == Err(WrongHeader)
    ensures HasMagic(data) && |data| < 8 ==> r == Err(TypeUnreadable)
    ensures HasMagic(data) && 8 <= |data| < 12 ==> r == Err(CountUnreadable)
    ensures HasMagic(data) && 12 <= |data| && Uint32At(data, 8) == 0 ==> r == Err(EmptyArchive)
    ensures HasMagic(data) && 12 <= |data| && ToInt32(Uint32At(data, 8)) < 0 ==> r == Err(NegativeCapacity)
    ensures r.Ok? <==>
      (HasMagic(data) && 12 <= |data| && 0 < ToInt32(Uint32At(data, 8)) &&
       RecordsStart + RecordSize * Uint32At(data, 8) <= |data|)
    ensures r.Ok? ==> r.value.lodType == ToInt32(Uint32At(data, 4))
    ensures r.Ok? ==> r.value.numberOfFiles == ToInt32(Uint32At(data, 8)) == |r.value.files|
    ensures r.Ok? ==> forall i :: 0 <= i < |r.value.files| ==>
      r.value.files[i] == RecordAt(data, RecordsStart + RecordSize * i)
  {
    var header := ReadHeader(data);
    if header.Err? { return Err(header.error); }
    var lodType := ToInt32(header.value.lodType);
    var numberOfFiles := ToInt32(header.value.numberOfFiles);
    if numberOfFiles == 0 { return Err(EmptyArchive); }
    var cur := 12 + 80;
    var files := ReadLodFiles(data, cur, numberOfFiles);
    if files.Err? { return Err(files.error); }
    r := Ok(LodArchive(lodType, numberOfFiles, files.value));
  }
}
