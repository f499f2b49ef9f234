/** lodutils/lodparse, lod_archive_parser.go: parseLodFile filling a
  * LodArchiveMeta from the archive's header and record table. */
module LodutilsArchiveParser {
  import opened Results
  import opened BinRead
  import opened LodFormat
  import LodutilsParse
  import opened LodutilsArchive

  /** The record readLodFiles returns, stored as the metadata's file entry. */
  function ToMeta(f: LodutilsParse.LodFile): (m: LodFileMeta)
    ensures m.name == f.name && m.offset == f.offset
    ensures m.originalSize == f.originalSize && m.compressedSize == f.compressedSize
  {
    LodFileMeta(f.name, f.offset, f.originalSize, f.compressedSize)
  }

  /** Converting a table record by record. */
  function ToMetas(fs: seq<LodutilsParse.LodFile>): (ms: seq<LodFileMeta>)
    ensures |ms| == |fs| && forall i :: 0 <= i < |fs| ==> ms[i] == ToMeta(fs[i])
  {
    seq(|fs|, i requires 0 <= i < |fs| => ToMeta(fs[i]))
  }

  /** parseLodFile: header, non-zero count, 80 skipped bytes, the records; the
    * index is left to be built by the first GetFile. */
  method ParseLodFile(data: seq<byte>) returns (r: Result<LodArchiveMeta, LodError>)
    ensures |data| < 4 ==> r == Err(HeaderUnreadable)
    ensures 4 <= |data| && !HasMagic(data) ==> r == Err(WrongHeader)
    ensures HasMagic(data) && |data| < 8 ==> r == Err(TypeUnreadable)
    ensures HasMagic(data) && 8 <= |data| < 12 ==> r == Err(CountUnreadable)
    ensures HasMagic(data) && 12 <= |data| && Uint32At(data, 8) == 0 ==> r == Err(EmptyArchive)
    ensures HasMagic(data) && 12 <= |data| && ToInt32(Uint32At(data, 8)) < 0 ==> r == Err(NegativeCapacity)
    ensures r.Ok? <==>
      (HasMagic(data) && 12 <= |data| && 0 < ToInt32(Uint32At(data, 8)) &&
       RecordsStart + RecordSize * Uint32At(data, 8) <= |data|)
    ensures r.Ok? ==> fresh(r.value) && r.value.filesIndexes == None
    ensures r.Ok? ==> r.value.lodType == ToInt32(Uint32At(data, 4))
    ensures r.Ok? ==> r.value.numberOfFiles == ToInt32(Uint32At(data, 8)) == |r.value.files|
    ensures r.Ok? ==> forall i :: 0 <= i < |r.value.files| ==>
      r.value.files[i] == ToMeta(LodutilsParse.RecordAt(data, RecordsStart + RecordSize * i))
  {
    var header := ReadHeader(data);
    if header.Err? { return Err(header.error); }
    var lodType := ToInt32(header.value.lodType);
    var numberOfFiles := ToInt32(header.value.numberOfFiles);
    if numberOfFiles == 0 { return Err(EmptyArchive); }
    var cur := 12 + 80;
    var files := LodutilsParse.ReadLodFiles(data, cur, numberOfFiles);
    if files.Err? { return Err(files.error); }
    var lodArchiveMeta := new LodArchiveMeta(lodType, numberOfFiles, ToMetas(files.value));
    r := Ok(lodArchiveMeta);
  }
}
