/** lodutils/lodparse, lod_extract.go: the extractor whose worker count comes
  * from the optional fourth command-line argument, over signed 32-bit records. */
module LodutilsExtract {
  import opened Results
  import opened BinRead
  import opened BatchPartition
  import opened Extraction
  import opened LodutilsParse
  import LodutilsArchive

  const DefaultConcurrencyLevel: int := 4

  /** The worker count, from the default or the parsed argument (`parsedArg`
    * is None when os.Args has no fourth entry or strconv.Atoi rejects it),
    * clamped to the file count. A count below one either makes wg.Add panic
    * (negative) or divides by zero. */
  function Workers(numberOfFiles: i32, parsedArg: Option<int>): (r: Result<nat, ExtractError>)
    ensures r.Err? ==> r.error == Panic
    ensures r.Ok? <==> Min(if parsedArg.Some? then parsedArg.value else DefaultConcurrencyLevel, numberOfFiles) >= 1
    ensures r.Ok? ==> r.value == Min(if parsedArg.Some? then parsedArg.value else DefaultConcurrencyLevel, numberOfFiles)
    ensures r.Ok? ==> r.value <= numberOfFiles
  {
    var c := if parsedArg.Some? then parsedArg.value else DefaultConcurrencyLevel;
    var level := if c > numberOfFiles then numberOfFiles as int else c;
    if level < 0 then Err(Panic)
    else if level == 0 then Err(Panic)
    else Ok(level)
  }

  /** ExtractLodFiles without its goroutines: the record range of each worker. */
  method ExtractLodFiles(lodArchive: LodutilsArchive.LodArchiveMeta, parsedArg: Option<int>)
    returns (r: Result<seq<Range>, ExtractError>)
    ensures r.Ok? <==> Workers(lodArchive.numberOfFiles, parsedArg).Ok?
    ensures r.Err? ==> r.error == Panic
    ensures r.Ok? ==> |r.value| == Workers(lodArchive.numberOfFiles, parsedArg).value
    ensures r.Ok? ==> Tiles(r.value, lodArchive.numberOfFiles)
    ensures r.Ok? ==> forall k :: 0 <= k < |r.value| ==>
      r.value[k] == BatchRange(lodArchive.numberOfFiles, |r.value|, k + 1)
  {
    var concurrencyLevel := DefaultConcurrencyLevel;
    if parsedArg.Some? {
      concurrencyLevel := parsedArg.value;
    }
    if concurrencyLevel > lodArchive.numberOfFiles {
      concurrencyLevel := lodArchive.numberOfFiles;
    }
    if concurrencyLevel < 0 {
      return Err(Panic);
    }
    if concurrencyLevel == 0 {
      return Err(Panic);
    }
    var ranges := WorkerRanges(lodArchive.numberOfFiles, concurrencyLevel);
    r := Ok(ranges);
  }

  /** The size ExtractFile reads: the compressed size of a compressed record,
    * its original size otherwise. */
  function StoredSize(file: LodFile): (n: i32)
    ensures IsCompressed(file) ==> n == file.compressedSize && n != 0
    ensures !IsCompressed(file) ==> n == file.originalSize
  {
    if IsCompressed(file) then file.compressedSize else file.originalSize
  }

  /** The bytes ExtractFile writes for one record, or why it stops: a negative
    * offset fails the seek, a negative size panics in make, an empty read at
    * end of file fails, a bad zlib stream fails. */
  function Extracted(data: seq<byte>, file: LodFile, inflate: seq<byte> -> Option<seq<byte>>)
    : (r: Result<seq<byte>, ExtractError>)
    ensures file.offset < 0 ==> r == Err(SeekFailed)
    ensures file.offset >= 0 && StoredSize(file) < 0 ==> r == Err(Panic)
    ensures !IsCompressed(file) ==>
      (r.Ok? <==> file.offset >= 0 && (file.originalSize == 0 || (file.originalSize > 0 && file.offset < |data|)))
    ensures !IsCompressed(file) && r.Ok? ==> |r.value| == file.originalSize
    ensures !IsCompressed(file) && r.Ok? ==>
      forall i :: 0 <= i < file.originalSize ==> r.value[i] == ByteAt(data, file.offset + i)
    ensures IsCompressed(file) && r.Ok? ==> file.offset >= 0 && file.compressedSize > 0 && file.offset < |data|
    ensures IsCompressed(file) && r.Ok? ==>
      inflate(ReadBuffer(data, file.offset, file.compressedSize).value).Some? &&
      r.value == inflate(ReadBuffer(data, file.offset, file.compressedSize).value).value
    ensures IsCompressed(file) && file.offset >= 0 && file.compressedSize > 0 && file.offset < |data| ==>
      (r.Ok? <==> inflate(ReadBuffer(data, file.offset, file.compressedSize).value).Some?)
  {
    var fsize := StoredSize(file);
    if file.offset < 0 then Err(SeekFailed)
    else if fsize < 0 then Err(Panic)
    else
      match ReadBuffer(data, file.offset, fsize)
      case None => Err(ReadFailed)
      case Some(fb) =>
        if IsCompressed(file) then
          match inflate(fb)
          case None => Err(InflateFailed)
          case Some(out) => Ok(out)
        else Ok(fb)
  }

  /** ExtractFile: size by compression, seek, allocate, read, inflate when compressed. */
  method ExtractFile(data: seq<byte>, file: LodFile, inflate: seq<byte> -> Option<seq<byte>>)
    returns (r: Result<seq<byte>, ExtractError>)
    ensures r == Extracted(data, file, inflate)
  {
    var fsize: i32;
    if IsCompressed(file) {
      fsize := file.compressedSize;
    } else {
      fsize := file.originalSize;
    }
    if file.offset < 0 {
      return Err(SeekFailed);
    }
    if fsize < 0 {
      return Err(Panic);
    }
    var fb := ReadBuffer(data, file.offset, fsize);
    if fb.None? {
      return Err(ReadFailed);
    }
    var fbr := fb.value;
    if IsCompressed(file) {
      var out := inflate(fbr);
      if out.None? {
        return Err(InflateFailed);
      }
      fbr := out.value;
    }
    r := Ok(fbr);
  }

  /** An uncompressed record stored inside the archive extracts to exactly its bytes. */
  lemma StoredFileExtractsVerbatim(data: seq<byte>, file: LodFile, inflate: seq<byte> -> Option<seq<byte>>)
    requires !IsCompressed(file) && file.offset >= 0 && file.originalSize >= 0
    requires file.offset + file.originalSize <= |data|
    ensures Extracted(data, file, inflate) == Ok(data[file.offset .. file.offset + file.originalSize])
  {
    ReadBufferInside(data, file.offset, file.originalSize);
  }
}
