# homm3utils core, modelled in Dafny

This project models the readers and extractors of homm3utils. homm3utils is a set of
Go tools for the data files of Heroes of Might and Magic III. The model covers two formats:

* **LOD archives.** A LOD archive starts with a 12-byte header: the magic `"LOD\0"`,
  the archive type, and the file count. Eighty reserved bytes follow. From offset 92
  come 32-byte file records, each holding a zero-padded 16-byte name, an offset, the
  original size, one unnamed word and the compressed size. Four parsers of this layout
  are modelled (`lodparse`, `lodutils/lodparse` twice, and `lodutils/lodparser`). So are
  the archive-type predicates, the lazily built name index with its `GetFile` lookup,
  and the three extractors. An extractor splits the file table into one batch per
  worker, then reads each file's stored bytes, inflating them when the file is
  compressed.
* **DEF sprites.** A DEF file starts with a 16-byte header and a 256-colour palette.
  At offset 784 comes a block index. Each block entry holds an id, a frame count, eight
  reserved bytes, 13-byte frame names and then 4-byte frame offsets. The model covers:
  * the extraction loop over blocks and frames, with its margin check, the
    per-block canonical frame size and the file-wide pixel format;
  * the run-length decoder of pixel format 1;
  * the compositor, which draws a frame's pixels inside its margins on a transparent
    canvas and then recolours the game's special colours (background, shadow,
    selection).

The model works on the file's content as a `seq<byte>`, with an explicit cursor.
Each Go `binary.Read` or `io.ReadFull` is an exact read that either delivers its bytes
or fails. A plain `os.File.Read` into a buffer is modelled as it behaves on a regular
file. This covers a LOD file's stored bytes, a name field in the lodutils parsers and a literal pixel run. The read fails
only at end of file. Otherwise it delivers the bytes that remain, up to the buffer's
length, and the rest of the buffer stays zero. The format-1 run length is the stored
byte plus one in uint8 arithmetic, as in the code, so a stored 255 gives an empty run.
The canvas is an `array2<Rgba>` indexed `[x, y]`, and the archive metadata
with its index is a `class`. Loops in the source are `while` loops here, each proved
against a pure specification function. The properties proved about those
functions include:

* round trips of the little-endian and name encodings;
* a stored record or a literal pixel row reads back as written;
* the worker batches tile the file table;
* the name index finds the last record of a name, and the archive is reported
  corrupted exactly when two records share a name;
* the canonical size and the pixel format stay fixed once set;
* recolouring is idempotent.

Zlib inflation is a parameter (`inflate: seq<byte> -> Option<seq<byte>>`).

## Model

| member | source | states |
|---|---|---|
| BinRead.ToInt16 | internal/binread/readers.go:16-18 | the signed value is congruent to the 16-bit pattern mod 2^16, and is negative exactly when the top bit is set |
| BinRead.ToInt32 | lodutils/lodparse/lod_parser.go:80-82 | the signed value is congruent to the 32-bit pattern mod 2^32, and is negative exactly when the top bit is set |
| BinRead.ReadUint8 | internal/binread/readers.go:8-10 | succeeds iff one byte remains; yields that byte and advances by one |
| BinRead.ReadUint16 | internal/binread/readers.go:12-14 | succeeds iff two bytes remain; yields their little-endian value and advances by two |
| BinRead.ReadInt16 | internal/binread/readers.go:16-18 | as ReadUint16, with the two's-complement reading |
| BinRead.ReadUint32 | internal/binread/readers.go:20-22 | succeeds iff four bytes remain; yields their little-endian value and advances by four |
| BinRead.ReadInt32 | internal/binread/readers.go:24-26 | as ReadUint32, with the two's-complement reading |
| BinRead.EncodeUint32 | internal/binread/readers.go:20-22 | the little-endian writer the 32-bit reader is checked against: always four bytes |
| BinRead.EncodeUint16 | internal/binread/readers.go:12-14 | the little-endian writer for 16-bit values: always two bytes |
| BinRead.DecodeEncodeUint16 | internal/binread/readers.go:12-14 | decoding an encoded 16-bit value gives the value back |
| BinRead.EncodeDecodeUint16 | internal/binread/readers.go:12-14 | encoding a decoded 2-byte sequence gives the bytes back |
| BinRead.Int16OfEncoding | internal/binread/readers.go:16-18 | a signed 16-bit value stored as its bit pattern reads back unchanged |
| BinRead.DecodeEncodeUint32 | internal/binread/readers.go:20-22 | decoding an encoded 32-bit value gives the value back |
| BinRead.EncodeDecodeUint32 | internal/binread/readers.go:20-22 | encoding a decoded 4-byte sequence gives the bytes back |
| BinRead.Int32OfEncoding | internal/binread/readers.go:24-26 | a signed value stored as its 32-bit pattern reads back unchanged |
| BinRead.FieldName | internal/binread/readers.go:35-43 | the name has no zero byte; with a zero in the field it is the prefix before the first zero; with none it is empty |
| BinRead.FirstZero | internal/binread/readers.go:35-41 | the position found holds a zero and no zero comes before it |
| BinRead.FirstZeroUnique | internal/binread/readers.go:35-41 | the first zero of a field is unique, so the scan's result is determined |
| BinRead.NameLength | internal/binread/readers.go:35-41 | the loop finds the first zero byte, or leaves the length at 0 when there is none |
| BinRead.ReadAvailableChars | internal/binread/readers.go:28-44 | succeeds iff the count is 0 or the whole field is available; consumes the field and returns FieldName of it |
| LodFormat.ReadHeader | lodparse/lod_archive_parser.go:26-49 | one error per short or wrong header word; succeeds iff the magic matches and 12 bytes exist, yielding the type and count words |
| LodFormat.EncodeName | lodparse/lod_archive_parser.go:72-76 | the 16-byte zero-padded name field a record stores |
| LodFormat.EncodeNameRoundTrip | lodparse/lod_archive_parser.go:72-76 | a name shorter than 16 bytes without zero bytes reads back from its field unchanged |
| LodparseArchiveType.IsBaseType | lodparse/lod_archive_type.go:10-12 | true iff the type is 1 |
| LodparseArchiveType.IsExpansionType | lodparse/lod_archive_type.go:14-16 | true iff the type is 2 |
| LodparseArchiveType.MatchesFrom | lodparse/lod_archive_type.go:18-25 | true iff some entry of the list, from the given position on, equals the type |
| LodparseArchiveType.IsUnknownType | lodparse/lod_archive_type.go:18-25 | true iff the type is 0xff or 0x1F4 |
| LodparseArchiveType.KindsExclusive | lodparse/lod_archive_type.go:4-25 | a type is at most one of base, expansion and unknown |
| LodparseArchiveParser.IsCompressed | lodparse/lod_extract.go:63-67 | a stored file is compressed exactly when its compressed size is not zero; this picks the size the extractor reads |
| LodparseArchiveParser.RecordAt | lodparse/lod_archive_parser.go:70-95 | the record at p: the name before the first zero of the 16-byte field, then the words at +16, +20 and +28, the word at +24 skipped |
| LodparseArchiveParser.ReadRecord | lodparse/lod_archive_parser.go:70-95 | succeeds iff a whole 32-byte record remains; yields the record's name, offset, sizes and skips the unnamed word |
| LodparseArchiveParser.ReadLodFiles | lodparse/lod_archive_parser.go:65-99 | succeeds iff all records fit; record i is read at pos + 32i; on failure names the first truncated record |
| LodparseArchiveParser.ParseLodFile | lodparse/lod_archive_parser.go:15-63 | header errors as ReadHeader; a zero count is an empty-archive error; otherwise succeeds iff all records fit from offset 92 and returns them |
| LodparseArchiveParser.EncodeRecord | lodparse/lod_archive_parser.go:70-95 | the 32-byte layout of one file record |
| LodparseArchiveParser.RecordRoundTrip | lodparse/lod_archive_parser.go:70-95 | an encoded record, wherever it sits in the file, is read back as the record |
| LodparseArchiveParser.UintAtSlice | lodparse/lod_archive_parser.go:78-93 | a word read inside a slice equals the word read at the same place in the file |
| LodutilsArchiveType.IsBaseType | lodutils/lodparse/lod_archive_type.go:10-15 | true iff the type is 1 |
| LodutilsArchiveType.IsExpansionType | lodutils/lodparse/lod_archive_type.go:17-22 | true iff the type is 2 |
| LodutilsArchiveType.IsUnknownType | lodutils/lodparse/lod_archive_type.go:24-29 | true iff the type is 0xff |
| LodutilsArchiveType.KindsExclusive | lodutils/lodparse/lod_archive_type.go:3-29 | a type is at most one of base, expansion and unknown |
| LodutilsArchiveType.UnknownTypesDiffer | lodutils/lodparse/lod_archive_type.go:24-29 | both packages agree on base and expansion; only lodparse counts 0x1F4 as unknown |
| LodutilsParse.IsCompressed | lodutils/lodparse/lod_parser.go:27-29 | a LodFile is compressed exactly when its compressed size is not zero |
| LodutilsParse.RecordAt | lodutils/lodparse/lod_parser.go:89-114 | the record at p: the field name, then the words at +16, +20 and +28 read as int32, the word at +24 skipped |
| LodutilsParse.ReadLodArchiveFileName | lodutils/lodparse/lod_parser.go:120-136 | one os.File.Read of 16 bytes: fails iff at end of file; otherwise the name before the first zero of the zero-padded buffer, the cursor at most at end of file; a whole field gives its name and advances by 16 |
| LodutilsParse.ReadRecord | lodutils/lodparse/lod_parser.go:89-114 | succeeds iff a whole record remains; yields signed fields |
| LodutilsParse.ReadLodFiles | lodutils/lodparse/lod_parser.go:84-118 | a negative count is the make panic; otherwise as the lodparse reader, on signed fields |
| LodutilsParse.ParseLodFile | lodutils/lodparse/lod_parser.go:31-78 | header errors; a zero count is an empty-archive error and a negative one the make panic; otherwise the records from offset 92 |
| LodutilsArchive.IsCompressed | lodutils/lodparse/lod_archive.go:94-96 | a LodFileMeta is compressed exactly when its compressed size is not zero |
| LodutilsArchive.IndexOf | lodutils/lodparse/lod_archive.go:39-44 | every key maps to a position of the table holding that name |
| LodutilsArchive.IndexOfLastWins | lodutils/lodparse/lod_archive.go:39-44 | every name of the table is a key, mapped to its last occurrence |
| LodutilsArchive.DistinctSnoc | lodutils/lodparse/lod_archive.go:39-44 | appending a record keeps names distinct iff its name is new |
| LodutilsArchive.IndexKeys | lodutils/lodparse/lod_archive.go:39-44 | the keys of the index are exactly the names of the table |
| LodutilsArchive.IndexSizeIffDistinct | lodutils/lodparse/lod_archive.go:39-44 | the index has at most as many entries as the table, and as many exactly when all names are distinct |
| LodutilsArchive.Lookup | lodutils/lodparse/lod_archive.go:46-64 | a corrupted-index error iff the index size differs from the file count; otherwise the indexed record, or a no-such-file error iff the name is absent |
| LodutilsArchive.LookupFindsRecord | lodutils/lodparse/lod_archive.go:46-64 | with distinct names and a matching count, every stored name is found and yields its own record |
| LodutilsArchive.DuplicateNamesCorrupt | lodutils/lodparse/lod_archive.go:46-64 | when two records share a name and the count matches the table, every lookup reports a corrupted index |
| LodutilsArchive.LodArchiveMeta.constructor | lodutils/lodparse/lod_archive.go:31-37 | the metadata as parsed, with no index built yet |
| LodutilsArchive.LodArchiveMeta.IndexFiles | lodutils/lodparse/lod_archive.go:39-44 | the loop builds IndexOf of the file table; the table itself is unchanged |
| LodutilsArchive.LodArchiveMeta.GetFile | lodutils/lodparse/lod_archive.go:46-64 | builds the index on first use, then answers as Lookup does |
| LodutilsArchiveParser.ToMeta | lodutils/lodparse/lod_archive_parser.go:14-61 | the field-for-field conversion of a parsed record to the metadata record |
| LodutilsArchiveParser.ToMetas | lodutils/lodparse/lod_archive_parser.go:14-61 | converts every record, keeping order and length |
| LodutilsArchiveParser.ParseLodFile | lodutils/lodparse/lod_archive_parser.go:14-61 | the same errors as the lodutils parser; on success a fresh metadata object with the records from offset 92 and no index |
| LodparserParser.ReadRecord | lodutils/lodparser/lod_parser.go:96-121 | succeeds iff a whole record remains; yields name, offset, original size, file type and compressed size |
| LodparserParser.ReadLodFiles | lodutils/lodparser/lod_parser.go:92-125 | a non-positive count reads nothing; otherwise succeeds iff all records fit, record i at pos + 32i |
| LodparserParser.ParseLodFile | lodutils/lodparser/lod_parser.go:35-86 | header errors; a zero count is an empty-archive error; a negative count gives an empty table; otherwise the records from offset 92 |
| LodparserParser.RecordAt | lodutils/lodparser/lod_parser.go:96-121 | the record at p: the field name and the int32 words at +16, +20, +28, with the word at +24 kept as the file type |
| LodparserParser.AgreesWithLodparse | lodutils/lodparser/lod_parser.go:92-125 | this parser reads the same names, offsets and sizes as the lodparse parser |
| BatchPartition.BatchRange | lodparse/lod_extract.go:31-38 | worker l of w gets [(n / w)(l - 1), (n / w) l), and the last worker also the n % w files left over |
| BatchPartition.Tiles | lodparse/lod_extract.go:33-48 | ranges that start at 0, end at n, are each well formed and follow each other without gap or overlap |
| BatchPartition.BatchRangeFacts | lodparse/lod_extract.go:31-38 | each worker's range is well formed, the first starts at 0, consecutive ones meet, the last ends at the file count |
| BatchPartition.WorkerRanges | lodparse/lod_extract.go:31-38 | one range per worker, as the batch formula gives, and together they tile the file table |
| BatchPartition.TilesCover | lodparse/lod_extract.go:31-48 | every file index is in some worker's range |
| BatchPartition.TilesOrdered | lodparse/lod_extract.go:31-48 | earlier ranges end before later ones start, so no file is extracted twice |
| BatchPartition.BatchSizes | lodparse/lod_extract.go:31-38 | with no more workers than files each worker gets n/w files, the last n/w + n%w, none zero |
| BatchPartition.TenFilesFourWorkers | lodparse/lod_extract.go:31-38 | a concrete instance: ten files over four workers |
| Extraction.ReadBuffer | lodparse/lod_extract.go:74-78 | an empty buffer always reads; a non-empty one fails iff at end of file; the buffer has the requested length, holding the file's bytes and then zeros |
| Extraction.ReadBufferInside | lodparse/lod_extract.go:74-78 | a buffer lying inside the file holds exactly the file's bytes |
| Extraction.Min | lodparse/lod_extract.go:21-22 | the smaller of the two |
| LodparseExtract.Workers | lodparse/lod_extract.go:18-29 | a negative level panics; an empty archive is the zero-concurrency error; otherwise min(level or 4, count), at least 1 |
| LodparseExtract.ExtractLodFiles | lodparse/lod_extract.go:17-59 | fails exactly as Workers does; otherwise one batch range per worker, tiling the file table |
| LodparseExtract.Extracted | lodparse/lod_extract.go:61-90 | a stored file gives its buffer, which fails only at end of file; a compressed file gives the inflated buffer, or an inflate error |
| LodparseExtract.ExtractFile | lodparse/lod_extract.go:61-90 | computes Extracted |
| LodparseExtract.StoredFileExtractsVerbatim | lodparse/lod_extract.go:61-90 | an uncompressed file lying inside the archive extracts to exactly its stored bytes |
| LodutilsExtract.Workers | lodutils/lodparse/lod_extract.go:18-34 | min(argument or 4, count); a level below 1 panics (a negative WaitGroup counter or a division by zero) |
| LodutilsExtract.ExtractLodFiles | lodutils/lodparse/lod_extract.go:17-60 | fails exactly as Workers does; otherwise ranges tiling the file table |
| LodutilsExtract.StoredSize | lodutils/lodparse/lod_extract.go:63-68 | the compressed size for a compressed file, else the original size |
| LodutilsExtract.Extracted | lodutils/lodparse/lod_extract.go:62-92 | a negative offset is a seek error, a negative size the make panic; otherwise as the lodparse extractor |
| LodutilsExtract.ExtractFile | lodutils/lodparse/lod_extract.go:62-92 | computes Extracted |
| LodutilsExtract.StoredFileExtractsVerbatim | lodutils/lodparse/lod_extract.go:62-92 | an uncompressed file lying inside the archive extracts to exactly its stored bytes |
| Lodextract.ExtractLodFiles | lodutils/lodextract/lod_extract.go:18-63 | fails exactly as LodutilsExtract.Workers does; otherwise range k is BatchRange of worker k + 1, and the ranges tile the file table |
| Lodextract.WriteCompressedFile | lodutils/lodextract/lod_extract.go:93-110 | succeeds iff the buffer inflates, with the inflated bytes |
| Lodextract.ExtractFile | lodutils/lodextract/lod_extract.go:65-91 | the same outcome as LodutilsExtract.Extracted |
| DefExtract.ReadDefMeta | defparse/def_extract.go:75-97 | succeeds iff 16 bytes remain; yields type, width, height and block count |
| DefExtract.ReadDefPalette | defparse/def_extract.go:99-122 | succeeds iff 768 bytes remain; colour i is the i-th RGB triple with alpha 255 |
| DefExtract.ImagesAt | defparse/def_extract.go:150-166 | one frame entry per count |
| DefExtract.BlocksFrom | defparse/def_extract.go:124-175 | the block entries stored back to back, one per block |
| DefExtract.BlockAt | defparse/def_extract.go:132-171 | a block entry at p: id and count, 8 skipped bytes, count 13-byte names and then count offsets, with the position after it; None when the id or count is short, or when a non-zero count of names and offsets does not fit; the 8 skipped bytes are a seek and need not exist |
| DefExtract.ReadNameTable | defparse/def_extract.go:150-158 | succeeds iff all names fit; name i is the field at q + 13i |
| DefExtract.ReadOffsetTable | defparse/def_extract.go:159-166 | succeeds iff all offsets fit; entry i keeps its name and gets the word at q + 4i |
| DefExtract.ReadDefBlock | defparse/def_extract.go:144-168 | reads the block entry at p exactly as BlockAt describes |
| DefExtract.ReadDefBlocksMeta | defparse/def_extract.go:124-175 | succeeds iff all block entries from 784 fit, returning them |
| DefExtract.ReadImageMeta | defparse/def_extract.go:280-317 | succeeds iff 32 bytes remain; the eight fields, unvalidated |
| DefExtract.ImageMetaAt | defparse/def_extract.go:280-317 | the 32-byte frame record: six unsigned words, then the two margins read as int32 |
| DefExtract.MarginsFit | defparse/def_extract.go:209 | the margins pass iff neither exceeds the full size converted to int32, compared signed |
| DefExtract.ReconcileFrame | defparse/def_extract.go:209-239 | a margin error iff the margins do not fit; the first frame sets the canonical size, and a later larger one is an error; the file's format is fixed by its first frame |
| DefExtract.FrameOf | defparse/def_extract.go:241-250 | a frame with zero width or height is an empty image; any other keeps its metadata |
| DefExtract.FramesFrom | defparse/def_extract.go:197-264 | one frame per entry |
| DefExtract.ContentFrom | defparse/def_extract.go:183-264 | one frame list per block |
| DefExtract.ReconcileStep | defparse/def_extract.go:209-239 | the source's sequence of checks computes ReconcileFrame |
| DefExtract.ExtractBlockFrames | defparse/def_extract.go:196-264 | the inner loop computes FramesFrom from an unset canonical size |
| DefExtract.ExtractBlocksContent | defparse/def_extract.go:177-278 | the block loop computes ContentFrom from an unset format |
| DefExtract.PaletteAt | defparse/def_extract.go:99-122 | colour i is the i-th stored RGB triple, opaque |
| DefExtract.DefContentAt | defparse/def_extract.go:43-73 | a file shorter than the header is a header error, one shorter than header plus palette a palette error |
| DefExtract.DefContentFacts | defparse/def_extract.go:43-73 | a long enough file is accepted iff its block index reads and all frames pass the checks; the result is the stored header, palette, index and frames |
| DefExtract.ExtractDef | defparse/def_extract.go:43-73 | the reads in source order compute DefContentAt |
| DefExtract.FramesKeepCanonicalSize | defparse/def_extract.go:217-233 | once set, a block's canonical size is the size of every later frame |
| DefExtract.BlockCanonicalSize | defparse/def_extract.go:196-233 | every frame of a block gets the first frame's full size, and none is larger |
| DefExtract.FramesKeepFormat | defparse/def_extract.go:235-239 | once set, the format is that of every later frame of the block |
| DefExtract.ContentKeepsFormat | defparse/def_extract.go:235-239 | ... and of every frame of every later block |
| DefExtract.FileFormatFixedByFirstFrame | defparse/def_extract.go:183-239 | every frame of an accepted file has the format of the file's first frame |
| DefPixels.RunLength | defparse/pixels_readers.go:35-40 | a run is one more than the stored length byte in uint8 arithmetic, so 255 gives an empty run |
| DefPixels.Repeat | defparse/pixels_readers.go:49-52 | n copies of one byte |
| DefPixels.After | defparse/pixels_readers.go:44 | the cursor after a read stands just past the bytes read, or at end of file |
| DefPixels.Zeros | defparse/pixels_readers.go:43-44 | k zero bytes |
| DefPixels.LiteralRun | defparse/pixels_readers.go:43-48 | an n-byte buffer holding the bytes that remain, then zeros; exactly the stored bytes when all n remain |
| DefPixels.LiteralRunIsRead | defparse/pixels_readers.go:43-47 | a literal run's buffer is what one os.File.Read delivers |
| DefPixels.RunAt | defparse/pixels_readers.go:30-53 | a run needs its two header bytes; a non-empty literal run also needs one byte left, and yields the bytes that remain padded with zeros; any other code is repeated |
| DefPixels.LineOffsetsAt | defparse/pixels_readers.go:15-21 | one offset per row |
| DefPixels.DecodeRow | defparse/pixels_readers.go:28-55 | runs are decoded from p until the uint32 byte count, wrapping mod 2^32, reaches the width; None when a run is short |
| DefPixels.DecodeRows | defparse/pixels_readers.go:22-56 | one decoded row per offset, or a short read |
| DefPixels.Format1Pixels | defparse/pixels_readers.go:12-59 | the rows decoded from the line offsets, concatenated |
| DefPixels.ReadRun | defparse/pixels_readers.go:30-53 | reads one run exactly as RunAt describes |
| DefPixels.ReadRow | defparse/pixels_readers.go:28-55 | the run loop of one row computes DecodeRow |
| DefPixels.FlattenAppend | defparse/pixels_readers.go:22-56 | flattening distributes over appending a row |
| DefPixels.ReadLineOffsets | defparse/pixels_readers.go:15-21 | succeeds iff all offsets fit, returning LineOffsetsAt |
| DefPixels.ReadRows | defparse/pixels_readers.go:22-56 | the row loop computes the flattened DecodeRows |
| DefPixels.ReadFormat1Pixels | defparse/pixels_readers.go:12-59 | computes Format1Pixels |
| DefPixels.RowLoopStep | defparse/pixels_readers.go:28-55 | the row loop's invariant is kept by one run, and a short read fails the row |
| DefPixels.RowsLoopStep | defparse/pixels_readers.go:22-56 | the row-table loop's invariant is kept by one row, and a failed row fails the table |
| DefPixels.RowAtLeastWidth | defparse/pixels_readers.go:28-55 | a decoded row holds at least the image width |
| DefPixels.FlattenAtLeast | defparse/pixels_readers.go:22-56 | rows of at least width bytes flatten to at least width times rows |
| DefPixels.FlattenExact | defparse/pixels_readers.go:22-56 | rows of exactly width bytes flatten to width times rows |
| DefPixels.RowsAtLeastWidth | defparse/pixels_readers.go:22-56 | every decoded row holds at least the image width |
| DefPixels.Format1Size | defparse/pixels_readers.go:12-59 | decoded pixels hold at least width times height bytes |
| DefPixels.DecodeRowStep | defparse/pixels_readers.go:28-55 | one run of a row is consumed, then the rest of the row |
| DefPixels.EncodeLiteralRow | defparse/pixels_readers.go:42-48 | a row written as literal runs of at most 255 bytes, each a 0xff marker, the length less one, then the bytes |
| DefPixels.EncodeHead | defparse/pixels_readers.go:30-48 | the first chunk of an encoded literal row starts with the literal marker and count |
| DefPixels.SubSlice | defparse/pixels_readers.go:42-48 | a slice of a stored slice is the same bytes in the file |
| DefPixels.LiteralChunkStep | defparse/pixels_readers.go:42-54 | decoding an encoded literal chunk yields its bytes and moves past it |
| DefPixels.DecodeEncodedRow | defparse/pixels_readers.go:28-55 | a row stored as literal runs decodes back to the row |
| DefImages.Recolour | defparse/def_images.go:36-53 | special colours become transparent black with their shadow alpha; others are unchanged; the result is never special |
| DefImages.RecolourIdempotent | defparse/def_images.go:36-53 | recolouring twice is recolouring once |
| DefImages.RecolourTable | defparse/def_images.go:10-15 | the colour table, with selection yellow left unchanged |
| DefImages.RecolourKeepsOpaque | defparse/def_images.go:36-53 | an opaque result came from a non-special colour and is that colour |
| DefImages.At | defparse/def_images.go:36-53 | the pixel on the canvas, transparent outside |
| DefImages.Set | defparse/def_images.go:36-53 | sets one pixel on the canvas and nothing else; no-op outside |
| DefImages.RecolourPixel | defparse/def_images.go:36-53 | the sequence of colour tests recolours one pixel as Recolour does |
| DefImages.ReplaceDefSpecialColors | defparse/def_images.go:33-56 | every pixel inside the margin rectangle is recoloured; all others are unchanged |
| DefImages.Composite | defparse/def_images.go:18-31 | the palette colour of the crop pixel inside the clip, recoloured; transparent elsewhere |
| DefImages.CropIndexNonNegative | defparse/def_images.go:18-31 | pixel indexes inside the clip are non-negative |
| DefImages.IndexBelowArea | defparse/def_images.go:18-31 | pixel indexes inside the clip are below width times height |
| DefImages.CoveredWhenFull | defparse/def_images.go:18-31 | a buffer of width times height pixels covers the crop |
| DefImages.DrawRow | defparse/def_images.go:18-31 | draws one canvas row of the crop, or fails iff the buffer is short for it |
| DefImages.DrawCrop | defparse/def_images.go:18-31 | draws the whole crop, failing iff the buffer does not cover it |
| DefImages.DecodePixels | defparse/def_images.go:18-31 | a fresh full-size canvas whose every pixel is Composite, or failure iff the buffer is short |
| DefImages.OutsideFrameTransparent | defparse/def_images.go:18-31 | pixels outside the margins are transparent |
| DefImages.CropPixelPlacement | defparse/def_images.go:18-31 | crop pixel (c, r) lands at (left + c, top + r), and a non-special palette colour is kept |
| DefImages.CompositeSettled | defparse/def_images.go:18-56 | a composed pixel is never a special colour |
| DefImages.PassIdempotent | defparse/def_images.go:33-56 | running the special-colour pass on a composed canvas changes nothing |
| Homm3Images.ReplaceHomm3SpecialColors | defparse/homm3_images.go:34-57 | the same recolouring as ReplaceDefSpecialColors |
| Homm3Images.DecodePixels | defparse/homm3_images.go:18-32 | the same canvas as DefImages.DecodePixels |

## Left out

- Files, goroutines, sync.WaitGroup, os.Create, directory creation, PNG and JSON writing and Printf are I/O or concurrency; extraction returns the bytes that would be written.
- Zlib is a parameter. The Go code tells a header error from a stream error; the model has one inflate failure. A file that is partly written before a stream error is not modelled.
- os.Args parsing is taken as `Option<int>`, the result of strconv.Atoi when there is a third argument.
- Slicing `Files[start:end]` beyond the table panics in a goroutine. This is not modelled; only the ranges are computed.
- BinRead.ReadAvailableChars: a short os.File.Read of a name field is modelled as a failed read, where Go returns the zero-padded rest of the field. The next read then fails anyway, so parsing returns an error in both cases. LodutilsParse.ReadLodArchiveFileName, the copy of this read in lodutils, models the short read as Go does.
- lodparse/lod_archive.go is not part of this model. Its LodFileMeta, IsCompressed and LodArchiveMeta are rebuilt from their uses, and its index is left out.
- The lodutils/lodparse package declares parseLodFile, readLodFiles, readLodArchiveFileName, lodArchiveHeader and readInt32 twice. Its lod_archive_parser.go also stores []LodFile in a []LodFileMeta field. Each file gets its own module here, and records are converted field for field (LodutilsArchiveParser.ToMeta).
- lodutils/lodparse ExtractLodFiles passes LodFileMeta to ExtractFile, which takes LodFile. The model passes the LodFile form.
- def_images.go and homm3_images.go declare the same names in one package. Homm3Images.ReplaceHomm3SpecialColors delegates to the DefImages pass, which has the same body.
- The readPixels dispatcher and the pixel formats other than 1 are not part of this model.
- The 99999 sentinel is modelled as written: a first frame whose full size is 99999 x 99999 leaves the canonical size unset.
- LoadLodArchiveMetaFromJson, ToJSON and WriteJsonFile are JSON I/O.

Two behaviours of the code that a reader might not expect, modelled as written:
- ReadAvailableChars returns an empty name when the field holds no zero byte, not the whole field.
- The DEF pixel-format check compares every frame with the first frame of the file, not of its block.
