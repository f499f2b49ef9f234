/** lodparse, lod_extract.go: how many workers extract an archive, which
  * records each one takes, and what bytes one record extracts to. */
module LodparseExtract {
  import opened Results
  import opened BinRead
  import opened BatchPartition
  import opened Extraction
  import opened LodparseArchiveParser

  const DefaultConcurrencyLevel: int := 4

  /** The worker count ExtractLodFiles settles on, or why it gives up. */
  function Workers(numberOfFiles: u32, concurrencyLevel: int): (r: Result<nat, ExtractError>)
    ensures concurrencyLevel < 0 ==> r == Err(Panic)
    ensures concurrencyLevel >= 0 && numberOfFiles == 0 ==> r == Err(ZeroConcurrency)
    ensures r.Ok? <==> concurrencyLevel >= 0 && numberOfFiles > 0
    ensures r.Ok? ==> 1 <= r.value <= numberOfFiles
    ensures r.Ok? ==> r.value == Min(if concurrencyLevel == 0 then DefaultConcurrencyLevel else concurrencyLevel, numberOfFiles)
  {
    var c := if concurrencyLevel == 0 then DefaultConcurrencyLevel else concurrencyLevel;
    if c > numberOfFiles then
      if numberOfFiles == 0 then Err(ZeroConcurrency) else Ok(numberOfFiles)
    else if c < 0 then Err(Panic)
    else Ok(c)
  }

  /** ExtractLodFiles without its goroutines: the record range of each worker.
    * A negative concurrency level reaches wg.Add and panics. */
  method ExtractLodFiles(lodArchive: LodArchiveMeta, concurrencyLevel: int) returns (r: Result<seq<Range>, ExtractError>)
    ensures r.Ok? <==> Workers(lodArchive.numberOfFiles, concurrencyLevel).Ok?
    ensures r.Err? ==> r.error == Workers(lodArchive.numberOfFiles, concurrencyLevel).error
    ensures r.Ok? ==> |r.value| == Workers(lodArchive.numberOfFiles, concurrencyLevel).value
    ensures r.Ok? ==> Tiles(r.value, lodArchive.numberOfFiles)
    ensures r.Ok? ==> forall k :: 0 <= k < |r.value| ==>
      r.value[k] == BatchRange(lodArchive.numberOfFiles, |r.value|, k + 1)
  {
    var level := concurrencyLevel;
    if level == 0 {
      level := DefaultConcurrencyLevel;
    }
    if level > lodArchive.numberOfFiles {
      level := lodArchive.numberOfFiles;
      if level == 0 {
        return Err(ZeroConcurrency);
      }
    }
    if level < 0 {
      return Err(Panic);
    }
    var ranges := WorkerRanges(lodArchive.numberOfFiles, level);
    r := Ok(ranges);
  }

  /** The bytes ExtractFile writes for one record. */
  function Extracted(data: seq<byte>, file: LodFileMeta, inflate: seq<byte> -> Option<seq<byte>>)
    : (r: Result<seq<byte>, ExtractError>)
    ensures !IsCompressed(file) ==> (r.Ok? <==> file.originalSize == 0 || file.offset < |data|)
    ensures !IsCompressed(file) && r.Ok? ==> |r.value| == file.originalSize
    ensures !IsCompressed(file) && r.Ok? ==>
      forall i :: 0 <= i < file.originalSize ==> r.value[i] == ByteAt(data, file.offset + i)
    ensures IsCompressed(file) ==>
      (r.Ok? <==> file.offset < |data| && inflate(ReadBuffer(data, file.offset, file.compressedSize).value).Some?)
    ensures IsCompressed(file) && r.Ok? ==>
      r.value == inflate(ReadBuffer(data, file.offset, file.compressedSize).value).value
    ensures r.Err? ==> r.error == ReadFailed || r.error == InflateFailed
  {
    var fsize := if IsCompressed(file) then file.compressedSize else file.originalSize;
    match ReadBuffer(data, file.offset, fsize)
    case None => Err(ReadFailed)
    case Some(fb) =>
      if IsCompressed(file) then
        match inflate(fb)
        case None => Err(InflateFailed)
        case Some(out) => Ok(out)
      else Ok(fb)
  }

  /** ExtractFile: size by compression, seek to the offset (never negative
    * here), read the buffer, inflate it when compressed. */
  method ExtractFile(data: seq<byte>, file: LodFileMeta, inflate: seq<byte> -> Option<seq<byte>>)
    returns (r: Result<seq<byte>, ExtractError>)
    ensures r == Extracted(data, file, inflate)
  {
    var fsize: u32;
    if IsCompressed(file) {
      fsize := file.compressedSize;
    } else {
      fsize := file.originalSize;
    }
    var cur: nat := file.offset;
    var fb := ReadBuffer(data, cur, fsize);
    if fb.None? {
      return Err(ReadFailed);
    }
    var fbr := fb.value;
    if IsCompressed(file) {
      var out := inflate(fbr);
      if out.None? {
        return Err(InflateFailed);
      }
      fbr := out.value;
    }
    r := Ok(fbr);
  }

  /** An uncompressed record stored inside the archive extracts to exactly its bytes. */
  lemma StoredFileExtractsVerbatim(data: seq<byte>, file: LodFileMeta, inflate: seq<byte> -> Option<seq<byte>>)
    requires !IsCompressed(file) && file.offset + file.originalSize <= |data|
    ensures Extracted(data, file, inflate) == Ok(data[file.offset .. file.offset + file.originalSize])
  {
    ReadBufferInside(data, file.offset, file.originalSize);
  }
}
