/** lodutils/lodparse, lod_archive.go: an archive's metadata with a lazily
  * built index from file name to position in the file table. */
module LodutilsArchive {
  import opened Results
  import opened BinRead
  import opened LodutilsArchiveType

  datatype LodFileMeta = LodFileMeta(name: seq<byte>, offset: i32, originalSize: i32, compressedSize: i32)

  /** LodFileMeta.IsCompressed: a non-zero compressed size. */
  predicate IsCompressed(f: LodFileMeta)
  {
    f.compressedSize != 0
  }

  datatype ArchiveError = CorruptedIndex | NoSuchFile

  /** The map indexFiles builds: each name to the position of its last
    * occurrence in the table. */
  function IndexOf(files: seq<LodFileMeta>): (ix: map<seq<byte>, nat>)
    ensures forall name :: name in ix ==> ix[name] < |files| && files[ix[name]].name == name
    decreases |files|
  {
    if files == [] then map[]
    else IndexOf(files[..|files| - 1])[files[|files| - 1].name := |files| - 1]
  }

  /** A last occurrence of a name stays the last one when a record with
    * another name is appended. */
  lemma LastOccurrenceSnoc(files: seq<LodFileMeta>, prefix: seq<LodFileMeta>, name: seq<byte>, at: nat)
    requires files != [] && prefix == files[..|files| - 1] && files[|files| - 1].name != name
    requires forall k :: at < k < |prefix| ==> prefix[k].name != name
    ensures forall k :: at < k < |files| ==> files[k].name != name
  {
    assert forall k :: 0 <= k < |prefix| ==> prefix[k] == files[k];
  }

  /** Every name of the table is a key, and its position is the last one holding it. */
  lemma {:induction false} IndexOfLastWins(files: seq<LodFileMeta>, i: nat)
    requires i < |files|
    ensures files[i].name in IndexOf(files)
    ensures i <= IndexOf(files)[files[i].name]
    ensures forall k :: IndexOf(files)[files[i].name] < k < |files| ==> files[k].name != files[i].name
    decreases |files|
  {
    var last := |files| - 1;
    var prefix := files[..last];
    var name := files[i].name;
    if name != files[last].name {
      assert i < last && prefix[i] == files[i];
      IndexOfLastWins(prefix, i);
      LastOccurrenceSnoc(files, prefix, name, IndexOf(prefix)[name]);
    }
  }

  /** No two records share a name. */
  predicate DistinctNames(files: seq<LodFileMeta>)
  {
    forall i, j :: 0 <= i < j < |files| ==> files[i].name != files[j].name
  }

  /** Appending a record keeps names distinct exactly when its name is new. */
  lemma DistinctSnoc(files: seq<LodFileMeta>)
    requires files != []
    ensures DistinctNames(files) <==>
      (DistinctNames(files[..|files| - 1]) &&
       forall i :: 0 <= i < |files| - 1 ==> files[i].name != files[|files| - 1].name)
  {
    var prefix := files[..|files| - 1];
    assert forall i :: 0 <= i < |prefix| ==> prefix[i] == files[i];
  }

  /** The keys of the index are exactly the names in the table. */
  lemma IndexKeys(files: seq<LodFileMeta>, name: seq<byte>)
    ensures name in IndexOf(files) <==> exists i :: 0 <= i < |files| && files[i].name == name
  {
    if exists i :: 0 <= i < |files| && files[i].name == name {
      var i :| 0 <= i < |files| && files[i].name == name;
      IndexOfLastWins(files, i);
    }
  }

  /** The index has one entry per record exactly when the names are distinct. */
  lemma {:induction false} IndexSizeIffDistinct(files: seq<LodFileMeta>)
    ensures |IndexOf(files)| <= |files|
    ensures |IndexOf(files)| == |files| <==> DistinctNames(files)
    decreases |files|
  {
    if files != [] {
      var last := |files| - 1;
      var prefix := files[..last];
      var name := files[last].name;
      IndexSizeIffDistinct(prefix);
      DistinctSnoc(files);
      IndexKeys(prefix, name);
      assert forall i :: 0 <= i < last ==> prefix[i] == files[i];
      assert IndexOf(files) == IndexOf(prefix)[name := last];
    }
  }

  /** The lookup GetFile performs once the index exists. */
  function Lookup(numberOfFiles: i32, files: seq<LodFileMeta>, index: map<seq<byte>, nat>, name: seq<byte>)
    : (r: Result<LodFileMeta, ArchiveError>)
    ensures numberOfFiles != |index| ==> r == Err(CorruptedIndex)
    ensures numberOfFiles == |index| && name !in index ==> r == Err(NoSuchFile)
    ensures r.Ok? <==> numberOfFiles == |index| && name in index && index[name] < |files|
    ensures r.Ok? ==> r.value == files[index[name]]
  {
    if numberOfFiles != |index| then Err(CorruptedIndex)
    else if name !in index then Err(NoSuchFile)
    else if index[name] >= |files| then Err(CorruptedIndex)
    else Ok(files[index[name]])
  }

  /** For a table read from an archive (its count matching its records) with
    * distinct names, GetFile finds a name exactly when a record has it. */
  lemma LookupFindsRecord(files: seq<LodFileMeta>, numberOfFiles: i32, name: seq<byte>)
    requires numberOfFiles == |files| && DistinctNames(files)
    ensures Lookup(numberOfFiles, files, IndexOf(files), name).Ok? <==> exists i :: 0 <= i < |files| && files[i].name == name
    ensures forall i :: 0 <= i < |files| && files[i].name == name ==>
      Lookup(numberOfFiles, files, IndexOf(files), name) == Ok(files[i])
  {
    IndexSizeIffDistinct(files);
    forall i | 0 <= i < |files| && files[i].name == name
      ensures Lookup(numberOfFiles, files, IndexOf(files), name) == Ok(files[i])
    {
      IndexOfLastWins(files, i);
      var k := IndexOf(files)[name];
      assert files[k].name == name;
      assert k == i;
    }
  }

  /** A table with a repeated name makes every GetFile fail as a corrupted index. */
  lemma DuplicateNamesCorrupt(files: seq<LodFileMeta>, numberOfFiles: i32, name: seq<byte>)
    requires numberOfFiles == |files| && !DistinctNames(files)
    ensures Lookup(numberOfFiles, files, IndexOf(files), name) == Err(CorruptedIndex)
  {
    IndexSizeIffDistinct(files);
  }

  class LodArchiveMeta {
    var lodType: LodArchiveType
    var numberOfFiles: i32
    var files: seq<LodFileMeta>
    /** None until indexFiles has run. */
    var filesIndexes: Option<map<seq<byte>, nat>>

    constructor (lodType: LodArchiveType, numberOfFiles: i32, files: seq<LodFileMeta>)
      ensures this.lodType == lodType && this.numberOfFiles == numberOfFiles && this.files == files
      ensures filesIndexes == None
    {
      this.lodType := lodType;
      this.numberOfFiles := numberOfFiles;
      this.files := files;
      filesIndexes := None;
    }

    /** indexFiles: a fresh map, each record's name set to its position in turn. */
    method IndexFiles()
      modifies this
      ensures filesIndexes == Some(IndexOf(files))
      ensures lodType == old(lodType) && numberOfFiles == old(numberOfFiles) && files == old(files)
    {
      var index: map<seq<byte>, nat> := map[];
      var i := 0;
      while i < |files|
        invariant 0 <= i <= |files|
        invariant index == IndexOf(files[..i])
      {
        assert files[..i + 1][..i] == files[..i];
        index := index[files[i].name := i];
        i := i + 1;
      }
      assert files[..i] == files;
      filesIndexes := Some(index);
    }

    /** GetFile: builds the index if there is none yet, then looks the name up. */
    method GetFile(name: seq<byte>) returns (r: Result<LodFileMeta, ArchiveError>)
      modifies this
      ensures old(filesIndexes).None? ==> filesIndexes == Some(IndexOf(files))
      ensures old(filesIndexes).Some? ==> filesIndexes == old(filesIndexes)
      ensures lodType == old(lodType) && numberOfFiles == old(numberOfFiles) && files == old(files)
      ensures r == Lookup(numberOfFiles, files, filesIndexes.value, name)
    {
      if filesIndexes.None? {
        IndexFiles();
      }
      var index := filesIndexes.value;
      if numberOfFiles != |index| {
        return Err(CorruptedIndex);
      }
      if name !in index {
        return Err(NoSuchFile);
      }
      var fi := index[name];
      if fi >= |files| {
        return Err(CorruptedIndex);
      }
      r := Ok(files[fi]);
    }
  }
}
