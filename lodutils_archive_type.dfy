/** The archive type word of a LOD header, as the lodutils/lodparse package reads it (int32). */
module LodutilsArchiveType {
  import opened BinRead
  import LodparseArchiveType

  type LodArchiveType = i32

  const Base: LodArchiveType := 0x01
  const Expansion: LodArchiveType := 0x02
  const Unknown: LodArchiveType := 0xff

  function IsBaseType(lat: LodArchiveType): (r: bool)
    ensures r <==> lat == 1
  {
    if lat == Base then true else false
  }

  function IsExpansionType(lat: LodArchiveType): (r: bool)
    ensures r <==> lat == 2
  {
    if lat == Expansion then true else false
  }

  function IsUnknownType(lat: LodArchiveType): (r: bool)
    ensures r <==> lat == 0xff
  {
    if lat == Unknown then true else false
  }

  /** No type word is of two kinds at once. */
  lemma KindsExclusive(lat: LodArchiveType)
    ensures !(IsBaseType(lat) && IsExpansionType(lat))
    ensures !(IsBaseType(lat) && IsUnknownType(lat))
    ensures !(IsExpansionType(lat) && IsUnknownType(lat))
  {
  }

  /** The two packages agree on the base and expansion words but not on the
    * unknown ones: 0x1F4 is unknown to lodparse only. */
  lemma UnknownTypesDiffer(lat: LodArchiveType)
    requires 0 <= lat
    ensures IsBaseType(lat) == LodparseArchiveType.IsBaseType(lat)
    ensures IsExpansionType(lat) == LodparseArchiveType.IsExpansionType(lat)
    ensures IsUnknownType(lat) ==> LodparseArchiveType.IsUnknownType(lat)
    ensures LodparseArchiveType.IsUnknownType(lat) && !IsUnknownType(lat) <==> lat == 0x1F4
  {
  }
}
