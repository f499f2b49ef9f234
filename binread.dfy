/** Little-endian primitive reads over an in-memory byte source
  * (the package `binread`). A read is modelled as either delivering
  * exactly the requested bytes or failing; the cursor is an explicit
  * position that each read returns advanced. */
module BinRead {

  import opened Results

  type byte = x: int | 0 <= x < 0x100
  type u16 = x: int | 0 <= x < 0x1_0000
  type i16 = x: int | -0x8000 <= x < 0x8000
  type u32 = x: int | 0 <= x < 0x1_0000_0000
  type i32 = x: int | -0x8000_0000 <= x < 0x8000_0000

  /** A read either delivers a value and the position just after it,
    * or fails because the source holds fewer bytes than requested. */
  datatype Reading<T> = Read(value: T, next: nat) | ShortRead

  /** Little-endian decoding of the two bytes at p. */
  function Uint16At(data: seq<byte>, p: nat): u16
    requires p + 2 <= |data|
  {
    data[p] as int + 0x100 * data[p + 1] as int
  }

  /** Little-endian decoding of the four bytes at p. */
  function Uint32At(data: seq<byte>, p: nat): u32
    requires p + 4 <= |data|
  {
    data[p] as int + 0x100 * data[p + 1] as int + 0x1_0000 * data[p + 2] as int + 0x100_0000 * data[p + 3] as int
  }

  /** Two's-complement reinterpretation of a 16-bit pattern. */
  function ToInt16(v: u16): (r: i16)
    ensures (r + 0x1_0000) % 0x1_0000 == v
    ensures r < 0 <==> v >= 0x8000
  {
    if v < 0x8000 then v else v - 0x1_0000
  }

  /** Two's-complement reinterpretation of a 32-bit pattern (Go's int32(x) on a uint32). */
  function ToInt32(v: u32): (r: i32)
    ensures (r + 0x1_0000_0000) % 0x1_0000_0000 == v
    ensures r < 0 <==> v >= 0x8000_0000
  {
    if v < 0x8000_0000 then v else v - 0x1_0000_0000
  }

  function ReadUint8(data: seq<byte>, pos: nat): (r: Reading<byte>)
    ensures r.Read? <==> pos + 1 <= |data|
    ensures r.Read? ==> r.value == data[pos] && r.next == pos + 1
  {
    if pos + 1 <= |data| then Read(data[pos], pos + 1) else ShortRead
  }

  function ReadUint16(data: seq<byte>, pos: nat): (r: Reading<u16>)
    ensures r.Read? <==> pos + 2 <= |data|
    ensures r.Read? ==> r.value == Uint16At(data, pos) && r.next == pos + 2
  {
    if pos + 2 <= |data| then Read(Uint16At(data, pos), pos + 2) else ShortRead
  }

  function ReadInt16(data: seq<byte>, pos: nat): (r: Reading<i16>)
    ensures r.Read? <==> pos + 2 <= |data|
    ensures r.Read? ==> r.value == ToInt16(Uint16At(data, pos)) && r.next == pos + 2
  {
    if pos + 2 <= |data| then Read(ToInt16(Uint16At(data, pos)), pos + 2) else ShortRead
  }

  function ReadUint32(data: seq<byte>, pos: nat): (r: Reading<u32>)
    ensures r.Read? <==> pos + 4 <= |data|
    ensures r.Read? ==> r.value == Uint32At(data, pos) && r.next == pos + 4
  {
    if pos + 4 <= |data| then Read(Uint32At(data, pos), pos + 4) else ShortRead
  }

  function ReadInt32(data: seq<byte>, pos: nat): (r: Reading<i32>)
    ensures r.Read? <==> pos + 4 <= |data|
    ensures r.Read? ==> r.value == ToInt32(Uint32At(data, pos)) && r.next == pos + 4
  {
    if pos + 4 <= |data| then Read(ToInt32(Uint32At(data, pos)), pos + 4) else ShortRead
  }

  /** Little-endian encoding of a 32-bit value: the writer a decoder is checked against. */
  function EncodeUint32(v: u32): (s: seq<byte>)
    ensures |s| == 4
  {
    [v % 0x100, (v / 0x100) % 0x100, (v / 0x1_0000) % 0x100, v / 0x100_0000]
  }

  /** Little-endian encoding of a 16-bit value. */
  function EncodeUint16(v: u16): (s: seq<byte>)
    ensures |s| == 2
  {
    [v % 0x100, v / 0x100]
  }

  lemma DecodeEncodeUint16(v: u16)
    ensures Uint16At(EncodeUint16(v), 0) == v
  {
    assert v == v % 0x100 + 0x100 * (v / 0x100);
  }

  lemma EncodeDecodeUint16(s: seq<byte>)
    requires |s| == 2
    ensures EncodeUint16(Uint16At(s, 0)) == s
  {
    var v := Uint16At(s, 0);
    assert v % 0x100 == s[0] && v / 0x100 == s[1];
  }

  /** A signed 16-bit value stored as its bit pattern reads back unchanged. */
  lemma Int16OfEncoding(v: i16)
    ensures ToInt16(Uint16At(EncodeUint16((v + 0x1_0000) % 0x1_0000), 0)) == v
  {
    DecodeEncodeUint16((v + 0x1_0000) % 0x1_0000);
  }

  lemma DecodeEncodeUint32(v: u32)
    ensures Uint32At(EncodeUint32(v), 0) == v
  {
    var s := EncodeUint32(v);
    assert v == v % 0x100 + 0x100 * ((v / 0x100) % 0x100) + 0x1_0000 * ((v / 0x1_0000) % 0x100) + 0x100_0000 * (v / 0x100_0000);
  }

  lemma EncodeDecodeUint32(s: seq<byte>)
    requires |s| == 4
    ensures EncodeUint32(Uint32At(s, 0)) == s
  {
    var v := Uint32At(s, 0);
    var t2 := s[2] as int + 0x100 * s[3] as int;
    var t1 := s[1] as int + 0x100 * t2;
    assert v == s[0] as int + 0x100 * t1;
    DivModByte(s[0], t1);
    DivModByte(s[1], t2);
    DivModByte(s[2], s[3]);
    Split(s[0] as int + 0x100 * s[1] as int, 0x1_0000, t2);
    Split(s[0] as int + 0x100 * s[1] as int + 0x1_0000 * s[2] as int, 0x100_0000, s[3]);
  }

  lemma DivModByte(a: byte, q: nat)
    ensures (a + 0x100 * q) % 0x100 == a
    ensures (a + 0x100 * q) / 0x100 == q
  {
  }

  lemma Split(lo: int, base: int, hi: nat)
    requires base == 0x1_0000 || base == 0x100_0000
    requires 0 <= lo < base
    ensures (lo + base * hi) / base == hi
  {
  }

  /** The signed reading is the unsigned one shifted down by 2^32 exactly when the top bit is set. */
  lemma Int32OfEncoding(v: i32)
    ensures ToInt32(Uint32At(EncodeUint32((v + 0x1_0000_0000) % 0x1_0000_0000), 0)) == v
  {
    DecodeEncodeUint32((v + 0x1_0000_0000) % 0x1_0000_0000);
  }

  /** The name held in a fixed-width field: the bytes before the first zero,
    * and nothing at all when the field holds no zero byte. */
  function FieldName(field: seq<byte>): (r: seq<byte>)
    ensures 0 !in r
    ensures 0 in field ==> |r| < |field| && r == field[..|r|] && field[|r|] == 0
    ensures 0 !in field ==> r == []
  {
    if 0 in field then field[..FirstZero(field, 0)] else []
  }

  /** Position of the first zero byte at or after i. */
  function FirstZero(s: seq<byte>, i: nat): (k: nat)
    requires i <= |s|
    requires 0 in s[i..]
    ensures i <= k < |s| && s[k] == 0
    ensures 0 !in s[i..k]
    decreases |s| - i
  {
    if s[i] == 0 then i
    else
      assert s[i..] == [s[i]] + s[i + 1..];
      var k := FirstZero(s, i + 1);
      assert s[i..k] == [s[i]] + s[i + 1..k];
      k
  }

  /** Two positions that are both "a zero with no zero before it" coincide. */
  lemma FirstZeroUnique(s: seq<byte>, j: nat, k: nat)
    requires j < |s| && s[j] == 0 && 0 !in s[..j]
    requires k < |s| && s[k] == 0 && 0 !in s[..k]
    ensures j == k
  {
    assert forall i :: 0 <= i < j ==> s[..j][i] == s[i] != 0;
    assert forall i :: 0 <= i < k ==> s[..k][i] == s[i] != 0;
  }

  /** The scan that computes `nameLen`: the index of the first zero byte,
    * left at 0 when the field has none. */
  method NameLength(field: seq<byte>) returns (nameLen: nat)
    ensures 0 in field ==> nameLen < |field| && field[nameLen] == 0 && 0 !in field[..nameLen]
    ensures 0 !in field ==> nameLen == 0
  {
    nameLen := 0;
    var i := 0;
    while i < |field|
      invariant 0 <= i <= |field|
      invariant 0 !in field[..i]
      invariant nameLen == 0
    {
      if field[i] == 0 {
        nameLen := i;
        return;
      }
      assert field[..i + 1] == field[..i] + [field[i]];
      i := i + 1;
    }
    assert field[..i] == field;
  }

  /** ReadAvailableChars: consumes a `count`-byte field and returns its name. */
  method ReadAvailableChars(data: seq<byte>, pos: nat, count: nat) returns (r: Reading<seq<byte>>)
    ensures r.Read? <==> count == 0 || pos + count <= |data|
    ensures r.Read? ==> r.next == pos + count
    ensures r.Read? && count == 0 ==> r.value == []
    ensures r.Read? && count > 0 ==> r.value == FieldName(data[pos..pos + count])
  {
    if count != 0 && pos + count > |data| {
      return ShortRead;
    }
    var nameBuf := if count == 0 then [] else data[pos..pos + count];
    var nameLen := NameLength(nameBuf);
    ghost var name := FieldName(nameBuf);
    if 0 in nameBuf {
      FirstZeroUnique(nameBuf, nameLen, |name|);
    }
    r := Read(nameBuf[..nameLen], pos + count);
  }
}
