/** lodutils/lodextract: the extractor over a LodArchive value; it writes a
  * compressed record through zlib and a stored one verbatim. */
module Lodextract {
  import opened Results
  import opened BinRead
  import opened BatchPartition
  import opened Extraction
  import opened LodutilsParse
  import LodutilsExtract

  /** ExtractLodFiles: the worker count from the optional argument, clamped to
    * the file count, and one record range per worker. */
  method ExtractLodFiles(lodArchive: LodArchive, parsedArg: Option<int>) returns (r: Result<seq<Range>, ExtractError>)
    ensures r.Ok? <==> LodutilsExtract.Workers(lodArchive.numberOfFiles, parsedArg).Ok?
    ensures r.Err? ==> r.error == Panic
    ensures r.Ok? ==> |r.value| == LodutilsExtract.Workers(lodArchive.numberOfFiles, parsedArg).value
    ensures r.Ok? ==> forall k :: 0 <= k < |r.value| ==>
      r.value[k] == BatchRange(lodArchive.numberOfFiles, |r.value|, k + 1)
    ensures r.Ok? ==> Tiles(r.value, lodArchive.numberOfFiles)
  {
    var workers := LodutilsExtract.Workers(lodArchive.numberOfFiles, parsedArg);
    if workers.Err? {
      return Err(workers.error);
    }
    var ranges := WorkerRanges(lodArchive.numberOfFiles, workers.value);
    r := Ok(ranges);
  }

  /** writeCompressedFile: the inflated stream, or the zlib failure. */
  function WriteCompressedFile(fileBuf: seq<byte>, inflate: seq<byte> -> Option<seq<byte>>)
    : (r: Result<seq<byte>, ExtractError>)
    ensures r.Ok? <==> inflate(fileBuf).Some?
    ensures r.Ok? ==> r.value == inflate(fileBuf).value
  {
    match inflate(fileBuf)
    case None => Err(InflateFailed)
    case Some(out) => Ok(out)
  }

  /** ExtractFile: seek, allocate, read, then write compressed or raw. */
  method ExtractFile(file: LodFile, data: seq<byte>, inflate: seq<byte> -> Option<seq<byte>>)
    returns (r: Result<seq<byte>, ExtractError>)
    ensures r == LodutilsExtract.Extracted(data, file, inflate)
  {
    var fileSize := if IsCompressed(file) then file.compressedSize else file.originalSize;
    if file.offset < 0 {
      return Err(SeekFailed);
    }
    if fileSize < 0 {
      return Err(Panic);
    }
    var fileBuf := ReadBuffer(data, file.offset, fileSize);
    if fileBuf.None? {
      return Err(ReadFailed);
    }
    if IsCompressed(file) {
      r := WriteCompressedFile(fileBuf.value, inflate);
    } else {
      r := Ok(fileBuf.value);
    }
  }
}
