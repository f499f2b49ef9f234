/** What every LOD archive reader of the repository shares: the 12-byte header
  * (magic, archive type, file count), the 80 reserved bytes after it, and the
  * 32-byte file records that follow from offset 92. */
module LodFormat {
  import opened Results
  import opened BinRead

  /** The value each archive starts with: the bytes "LOD\0". */
  const LodArchiveHeader: u32 := 0x00444f4c

  /** Header (12 bytes) plus the 80 bytes the readers seek over. */
  const RecordsStart: nat := 92

  /** name[16], offset, original size, an unnamed word, compressed size. */
  const RecordSize: nat := 32

  datatype LodError =
    | HeaderUnreadable
    | WrongHeader
    | TypeUnreadable
    | CountUnreadable
    | EmptyArchive
    | RecordTruncated(index: nat)
    | NegativeCapacity

  /** The archive type word and the file count, as stored. */
  datatype Header = Header(lodType: u32, numberOfFiles: u32)

  predicate HasMagic(data: seq<byte>)
  {
    4 <= |data| && Uint32At(data, 0) == LodArchiveHeader
  }

  /** The header reads of parseLodFile: magic, then type, then file count,
    * each failing on its own short read. */
  method ReadHeader(data: seq<byte>) returns (r: Result<Header, LodError>)
    ensures |data| < 4 ==> r == Err(HeaderUnreadable)
    ensures 4 <= |data| && !HasMagic(data) ==> r == Err(WrongHeader)
    ensures HasMagic(data) && |data| < 8 ==> r == Err(TypeUnreadable)
    ensures HasMagic(data) && 8 <= |data| < 12 ==> r == Err(CountUnreadable)
    ensures r.Ok? <==> HasMagic(data) && 12 <= |data|
    ensures r.Ok? ==> r.value == Header(Uint32At(data, 4), Uint32At(data, 8))
  {
    var lodHeader := ReadUint32(data, 0);
    if lodHeader.ShortRead? { return Err(HeaderUnreadable); }
    if lodHeader.value != LodArchiveHeader { return Err(WrongHeader); }
    var lodType := ReadUint32(data, lodHeader.next);
    if lodType.ShortRead? { return Err(TypeUnreadable); }
    var numberOfFiles := ReadUint32(data, lodType.next);
    if numberOfFiles.ShortRead? { return Err(CountUnreadable); }
    r := Ok(Header(lodType.value, numberOfFiles.value));
  }

  /** Records truncated at index i: all earlier records fit, record i does not. */
  predicate TruncatedAt(data: seq<byte>, pos: nat, i: nat)
  {
    (i == 0 || pos + RecordSize * i <= |data|) && pos + RecordSize * (i + 1) > |data|
  }

  /** The encoding of a record's 16-byte name field: the name, zero-padded. */
  function EncodeName(name: seq<byte>): (s: seq<byte>)
    requires |name| < 16
    ensures |s| == 16
  {
    name + seq(16 - |name|, _ => 0)
  }

  /** A name without zero bytes, shorter than the field, is read back as stored. */
  lemma EncodeNameRoundTrip(name: seq<byte>)
    requires |name| < 16 && 0 !in name
    ensures FieldName(EncodeName(name)) == name
  {
    var s := EncodeName(name);
    assert s[|name|] == 0;
    assert s[..|name|] == name;
    var r := FieldName(s);
    FirstZeroUnique(s, |r|, |name|);
  }
}
