/** lodutils/lodparser: the archive reader that also keeps each record's
  * fourth word as a file type. */
module LodparserParser {
  import opened Results
  import opened BinRead
  import opened LodFormat
  import LodutilsParse

  type LodArchiveType = i32

  const BaseArchive: LodArchiveType := 0x01
  const ExpansionArchive: LodArchiveType := 0x02
  const Unknown: LodArchiveType := 0xff

  datatype LodFile = LodFile(name: seq<byte>, offset: i32, originalSize: i32, compressedSize: i32, fileType: i32)

  datatype LodArchive = LodArchive(lodType: LodArchiveType, numberOfFiles: i32, files: seq<LodFile>)

  /** The record stored at p: name, offset, original size, file type, compressed size. */
  function RecordAt(data: seq<byte>, p: nat): LodFile
    requires p + RecordSize <= |data|
  {
    LodFile(FieldName(data[p .. p + 16]), ToInt32(Uint32At(data, p + 16)), ToInt32(Uint32At(data, p + 20)),
            ToInt32(Uint32At(data, p + 28)), ToInt32(Uint32At(data, p + 24)))
  }

  /** One iteration of readLodFiles: five reads in a row, no seek. */
  method ReadRecord(data: seq<byte>, p: nat) returns (r: Reading<LodFile>)
    ensures r.Read? <==> p + RecordSize <= |data|
    ensures r.Read? ==> r.value == RecordAt(data, p) && r.next == p + RecordSize
  {
    var name := LodutilsParse.ReadLodArchiveFileName(data, p);
    if name.ShortRead? { return ShortRead; }
    var offset := ReadInt32(data, name.next);
    if offset.ShortRead? { return ShortRead; }
    var originalSize := ReadInt32(data, offset.next);
    if originalSize.ShortRead? { return ShortRead; }
    var fileType := ReadInt32(data, originalSize.next);
    if fileType.ShortRead? { return ShortRead; }
    var compressedSize := ReadInt32(data, fileType.next);
    if compressedSize.ShortRead? { return ShortRead; }
    r := Read(LodFile(name.value, offset.value, originalSize.value, compressedSize.value, fileType.value),
              compressedSize.next);
  }

  /** readLodFiles: the loop `i < numberOfFiles` runs no times for a count
    * that is not positive; otherwise numberOfFiles consecutive records. */
  method ReadLodFiles(data: seq<byte>, pos: nat, numberOfFiles: int) returns (r: Result<seq<LodFile>, LodError>)
    ensures numberOfFiles <= 0 ==> r == Ok([])
    ensures r.Ok? <==> numberOfFiles <= 0 || pos + RecordSize * numberOfFiles <= |data|
    ensures r.Ok? && numberOfFiles > 0 ==> |r.value| == numberOfFiles
    ensures r.Ok? ==> forall i :: 0 <= i < |r.value| ==> r.value[i] == RecordAt(data, pos + RecordSize * i)
    ensures r.Err? ==> r.error.RecordTruncated? && r.error.index < numberOfFiles
    ensures r.Err? ==> TruncatedAt(data, pos, r.error.index)
  {
    var lodFiles: seq<LodFile> := [];
    var cur := pos;
    var i := 0;
    while i < numberOfFiles
      invariant 0 <= i && (numberOfFiles > 0 ==> i <= numberOfFiles)
      invariant numberOfFiles <= 0 ==> i == 0
      invariant cur == pos + RecordSize * i
      invariant i > 0 ==> cur <= |data|
      invariant |lodFiles| == i
      invariant forall k :: 0 <= k < i ==> lodFiles[k] == RecordAt(data, pos + RecordSize * k)
    {
      var lodFile := ReadRecord(data, cur);
      if lodFile.ShortRead? {
        return Err(RecordTruncated(i));
      }
      lodFiles := lodFiles + [lodFile.value];
      cur := lodFile.next;
      i := i + 1;
    }
    r := Ok(lodFiles);
  }

  /** ParseLodFile: header, non-zero count, 80 skipped bytes, then the records;
    * a negative count yields an archive without records. */
  method ParseLodFile(data: seq<byte>) returns (r: Result<LodArchive, LodError>)
    ensures |data| < 4 ==> r == Err(HeaderUnreadable)
    ensures 4 <= |data| && !HasMagic(data) ==> r == Err(WrongHeader)
    ensures HasMagic(data) && |data| < 8 ==> r == Err(TypeUnreadable)
    ensures HasMagic(data) && 8 <= |data| < 12 ==> r == Err(CountUnreadable)
    ensures HasMagic(data) && 12 <= |data| && Uint32At(data, 8) == 0 ==> r == Err(EmptyArchive)
    ensures r.Ok? <==>
      (HasMagic(data) && 12 <= |data| && Uint32At(data, 8) != 0 &&
       (ToInt32(Uint32At(data, 8)) < 0 || RecordsStart + RecordSize * Uint32At(data, 8) <= |data|))
    ensures r.Ok? ==> r.value.lodType == ToInt32(Uint32At(data, 4))
    ensures r.Ok? ==> r.value.numberOfFiles == ToInt32(Uint32At(data, 8))
    ensures r.Ok? && r.value.numberOfFiles < 0 ==> r.value.files == []
    ensures r.Ok? && r.value.numberOfFiles > 0 ==> |r.value.files| == r.value.numberOfFiles
    ensures r.Ok? ==> forall i :: 0 <= i < |r.value.files| ==>
      r.value.files[i] == RecordAt(data, RecordsStart + RecordSize * i)
  {
    var header := ReadHeader(data);
    if header.Err? { return Err(header.error); }
    var lodType := ToInt32(header.value.lodType);
    var numberOfFiles := ToInt32(header.value.numberOfFiles);
    if numberOfFiles == 0 { return Err(EmptyArchive); }
    var cur := 12 + 80;
    var files := ReadLodFiles(data, cur, numberOfFiles);
    if files.Err? { return Err(files.error); }
    r := Ok(LodArchive(lodType, numberOfFiles, files.value));
  }

  /** The first four words of a record are read alike by both lodutils readers;
    * only this reader keeps the fourth word, as the file type. */
  lemma AgreesWithLodparse(data: seq<byte>, p: nat)
    requires p + RecordSize <= |data|
    ensures RecordAt(data, p).name == LodutilsParse.RecordAt(data, p).name
    ensures RecordAt(data, p).offset == LodutilsParse.RecordAt(data, p).offset
    ensures RecordAt(data, p).originalSize == LodutilsParse.RecordAt(data, p).originalSize
    ensures RecordAt(data, p).compressedSize == LodutilsParse.RecordAt(data, p).compressedSize
  {
  }
}
