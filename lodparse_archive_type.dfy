/** The archive type word of a LOD header, as the lodparse package reads it (uint32). */
module LodparseArchiveType {
  import opened BinRead

  type LodArchiveType = u32

  const Base: LodArchiveType := 0x01
  const Expansion: LodArchiveType := 0x02

  /** The type words the package does not recognise. */
  const UnknownTypes: seq<LodArchiveType> := [0xff, 0x1F4]

  function IsBaseType(lat: LodArchiveType): (r: bool)
    ensures r <==> lat == 1
  {
    lat == Base
  }

  function IsExpansionType(lat: LodArchiveType): (r: bool)
    ensures r <==> lat == 2
  {
    lat == Expansion
  }

  /** The range loop over unknownTypes from index i on: true at the first match. */
  function MatchesFrom(lat: LodArchiveType, types: seq<LodArchiveType>, i: nat): (r: bool)
    requires i <= |types|
    ensures r <==> exists k :: i <= k < |types| && types[k] == lat
    decreases |types| - i
  {
    if i == |types| then false
    else if lat == types[i] then true
    else MatchesFrom(lat, types, i + 1)
  }

  function IsUnknownType(lat: LodArchiveType): (r: bool)
    ensures r <==> lat == 0xff || lat == 0x1F4
  {
    MatchesFrom(lat, UnknownTypes, 0)
  }

  /** No type word is of two kinds at once. */
  lemma KindsExclusive(lat: LodArchiveType)
    ensures !(IsBaseType(lat) && IsExpansionType(lat))
    ensures !(IsBaseType(lat) && IsUnknownType(lat))
    ensures !(IsExpansionType(lat) && IsUnknownType(lat))
  {
  }
}
