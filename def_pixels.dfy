/** The format-1 pixel decoder of DEF frames (defparse/pixels_readers.go):
  * a table of `Height` u32 row offsets, then per row a sequence of
  * (code, length) runs, relative to the frame offset plus 32. */
module DefPixels {

  import opened Results
  import opened BinRead
  import opened DefExtract
  import opened Extraction

  /** Modulus of the uint32 row counter `totalRowLength`. */
  const Modulus: int := 0x1_0000_0000

  /** Code byte announcing a run of literal bytes. */
  const Literal: byte := 0xFF

  datatype PixelError = LineOffsetTruncated | RowTruncated

  /** The run length: the length byte plus one, in uint8 arithmetic (255 wraps to 0). */
  function RunLength(b: byte): (n: byte)
    ensures b < 255 ==> n == b + 1
    ensures b == 255 ==> n == 0
  {
    (b + 1) % 0x100
  }

  function Repeat(c: byte, n: nat): (r: seq<byte>)
    ensures |r| == n && forall i :: 0 <= i < n ==> r[i] == c
  {
    seq(n, _ => c)
  }

  function PrependBytes(s: seq<byte>, rest: Option<seq<byte>>): Option<seq<byte>>
  {
    match rest
    case None => None
    case Some(more) => Some(s + more)
  }

  /** Where the cursor stands after reading n bytes from q: just after them,
    * or at the end of the file when fewer remain. */
  function After(data: seq<byte>, q: nat, n: nat): (next: nat)
    requires q <= |data|
    ensures q <= next <= |data|
    ensures next == q + n || next == |data|
  {
    if q + n <= |data| then q + n else |data|
  }

  /** k zero bytes: what a buffer holds where a short read left it unfilled. */
  function Zeros(k: nat): (r: seq<byte>)
    ensures |r| == k && forall i :: 0 <= i < k ==> r[i] == 0
  {
    if k == 0 then [] else [0] + Zeros(k - 1)
  }

  /** The n-byte buffer of a literal run read at q: the bytes the file still
    * holds, up to n, followed by zeros. */
  function LiteralRun(data: seq<byte>, q: nat, n: nat): (r: seq<byte>)
    requires q <= |data|
    ensures |r| == n
    ensures q + n <= |data| ==> r == data[q .. q + n]
  {
    var next := After(data, q, n);
    assert next - q <= n;
    data[q .. next] + Zeros(n - (next - q))
  }

  /** A literal run's buffer is what one os.File.Read delivers into it. */
  lemma LiteralRunIsRead(data: seq<byte>, q: nat, n: nat)
    requires q < |data| || (q == |data| && n == 0)
    ensures ReadBuffer(data, q, n) == Some(LiteralRun(data, q, n))
  {
    var b := ReadBuffer(data, q, n).value;
    var l := LiteralRun(data, q, n);
    var next := After(data, q, n);
    forall i | 0 <= i < n
      ensures b[i] == l[i]
    {
      if q + i < next {
        assert l[i] == data[q .. next][i];
      } else {
        assert l[i] == Zeros(n - (next - q))[i - (next - q)];
      }
    }
    assert b == l;
  }

  /** The run at p: its bytes and the position after it; None on a short read.
    * A literal run fills a `length`-byte buffer with one os.File.Read, which
    * fails only at end of file and otherwise leaves the bytes it could not
    * read zero; any other code is repeated `length` times. */
  function RunAt(data: seq<byte>, p: nat): (r: Option<(seq<byte>, nat)>)
    ensures r.Some? <==> p + 2 <= |data| && (data[p] == Literal && RunLength(data[p + 1]) > 0 ==> p + 2 < |data|)
    ensures r.Some? ==> |r.value.0| == RunLength(data[p + 1]) && p + 2 <= r.value.1 <= |data|
    ensures r.Some? && data[p] == Literal ==>
      r.value == (LiteralRun(data, p + 2, RunLength(data[p + 1])), After(data, p + 2, RunLength(data[p + 1])))
    ensures r.Some? && data[p] != Literal ==> r.value == (Repeat(data[p], RunLength(data[p + 1])), p + 2)
  {
    if p + 2 > |data| then None
    else
      var code := data[p];
      var length := RunLength(data[p + 1]);
      if code == Literal then
        if length > 0 && p + 2 == |data| then None
        else Some((LiteralRun(data, p + 2, length), After(data, p + 2, length)))
      else Some((Repeat(code, length), p + 2))
  }

  /** The bytes one row decodes to from position p, `total` being the uint32
    * count of bytes the row has produced so far; None on a short read. */
  function DecodeRow(data: seq<byte>, p: nat, width: u32, total: u32): Option<seq<byte>>
    decreases |data| - p
  {
    if total >= width then Some([])
    else match RunAt(data, p)
      case None => None
      case Some((run, next)) => PrependBytes(run, DecodeRow(data, next, width, (total + |run|) % Modulus))
  }

  /** The row-offset table: `height` u32 values from p. */
  function LineOffsetsAt(data: seq<byte>, p: nat, height: nat): (r: seq<u32>)
    requires height == 0 || p + 4 * height <= |data|
    ensures |r| == height
  {
    seq(height, i requires 0 <= i < height => Uint32At(data, p + 4 * i))
  }

  /** Every row of the table, row i decoded from base + offs[i]. */
  function DecodeRows(data: seq<byte>, base: nat, offs: seq<u32>, width: u32): (r: Option<seq<seq<byte>>>)
    ensures r.Some? ==> |r.value| == |offs|
    decreases |offs|
  {
    if offs == [] then Some([])
    else match DecodeRow(data, base + offs[0], width, 0)
      case None => None
      case Some(row) =>
        match DecodeRows(data, base, offs[1..], width)
        case None => None
        case Some(rows) => Some([row] + rows)
  }

  function Flatten(rows: seq<seq<byte>>): seq<byte>
  {
    if rows == [] then [] else rows[0] + Flatten(rows[1..])
  }

  /** The pixels of a format-1 frame whose row table starts at pos (just after
    * the 32-byte frame record at `offset`). */
  function Format1Pixels(data: seq<byte>, pos: nat, offset: nat, width: u32, height: u32)
    : (r: Result<seq<byte>, PixelError>)
    ensures r == Err(LineOffsetTruncated) <==> height > 0 && pos + 4 * height > |data|
  {
    if height > 0 && pos + 4 * height > |data| then Err(LineOffsetTruncated)
    else match DecodeRows(data, offset + 32, LineOffsetsAt(data, pos, height), width)
      case None => Err(RowTruncated)
      case Some(rows) => Ok(Flatten(rows))
  }

  /** One iteration of the row loop: read code and length, then the run. */
  method ReadRun(data: seq<byte>, p: nat) returns (r: Option<(seq<byte>, nat)>)
    ensures r == RunAt(data, p)
  {
    var code := ReadUint8(data, p);
    if code.ShortRead? { return None; }
    var lengthByte := ReadUint8(data, code.next);
    if lengthByte.ShortRead? { return None; }
    var length := (lengthByte.value + 1) % 0x100;
    var run: seq<byte> := [];
    if code.value == Literal {
      // plain bytes
      var b := ReadBuffer(data, lengthByte.next, length);
      if b.None? { return None; }
      LiteralRunIsRead(data, lengthByte.next, length);
      var next := if lengthByte.next + length <= |data| then lengthByte.next + length else |data|;
      r := Some((b.value, next));
    } else {
      // RLE
      var i := 0;
      while i < length
        invariant 0 <= i <= length
        invariant run == Repeat(code.value, i)
      {
        run := run + [code.value];
        i := i + 1;
      }
      r := Some((run, lengthByte.next));
    }
  }

  /** The row loop's invariant survives one run; a short read ends the row with None. */
  lemma RowLoopStep(data: seq<byte>, start: nat, width: u32, row: seq<byte>, cur: nat, total: u32)
    requires total < width
    requires DecodeRow(data, start, width, 0) == PrependBytes(row, DecodeRow(data, cur, width, total))
    ensures RunAt(data, cur).None? ==> DecodeRow(data, start, width, 0).None?
    ensures RunAt(data, cur).Some? ==>
      var (run, next) := RunAt(data, cur).value;
      DecodeRow(data, start, width, 0) == PrependBytes(row + run, DecodeRow(data, next, width, (total + |run|) % Modulus))
  {
    if RunAt(data, cur).Some? {
      var (run, next) := RunAt(data, cur).value;
      DecodeRowStep(data, cur, width, total, run, next);
      PrependTwice(row, run, DecodeRow(data, next, width, (total + |run|) % Modulus));
    }
  }

  lemma PrependTwice(a: seq<byte>, b: seq<byte>, rest: Option<seq<byte>>)
    ensures PrependBytes(a, PrependBytes(b, rest)) == PrependBytes(a + b, rest)
  {
    if rest.Some? {
      assert a + (b + rest.value) == (a + b) + rest.value;
    }
  }

  /** The `for totalRowLength < Width` loop for one row, from position start. */
  method ReadRow(data: seq<byte>, start: nat, width: u32) returns (r: Option<seq<byte>>)
    ensures r == DecodeRow(data, start, width, 0)
  {
    var row: seq<byte> := [];
    var cur := start;
    var totalRowLength: u32 := 0;
    assert DecodeRow(data, start, width, 0).Some? ==>
      [] + DecodeRow(data, start, width, 0).value == DecodeRow(data, start, width, 0).value;
    while totalRowLength < width
      invariant DecodeRow(data, start, width, 0) == PrependBytes(row, DecodeRow(data, cur, width, totalRowLength))
      decreases |data| - cur
    {
      var run := ReadRun(data, cur);
      RowLoopStep(data, start, width, row, cur, totalRowLength);
      if run.None? {
        return None;
      }
      row := row + run.value.0;
      cur := run.value.1;
      totalRowLength := (totalRowLength + |run.value.0|) % Modulus;
    }
    assert row + [] == row;
    r := Some(row);
  }

  function PrependRows(rows: seq<seq<byte>>, rest: Option<seq<seq<byte>>>): Option<seq<seq<byte>>>
  {
    match rest
    case None => None
    case Some(more) => Some(rows + more)
  }

  lemma {:induction false} FlattenAppend(rows: seq<seq<byte>>, row: seq<byte>)
    ensures Flatten(rows + [row]) == Flatten(rows) + row
    decreases |rows|
  {
    if rows == [] {
      assert [] + [row] == [row];
    } else {
      assert (rows + [row])[1..] == rows[1..] + [row];
      FlattenAppend(rows[1..], row);
    }
  }

  /** The first loop of readFormat1Pixels: `height` row offsets from the cursor. */
  method ReadLineOffsets(data: seq<byte>, pos: nat, height: u32) returns (r: Option<seq<u32>>)
    ensures r.Some? <==> height == 0 || pos + 4 * height <= |data|
    ensures r.Some? ==> r.value == LineOffsetsAt(data, pos, height)
  {
    var lineOffs: seq<u32> := seq(height, _ => 0);
    var cur := pos;
    var i := 0;
    while i < height
      invariant 0 <= i <= height
      invariant cur == pos + 4 * i
      invariant i > 0 ==> cur <= |data|
      invariant |lineOffs| == height
      invariant forall k :: 0 <= k < i ==> lineOffs[k] == Uint32At(data, pos + 4 * k)
    {
      var lineOff := ReadUint32(data, cur);
      if lineOff.ShortRead? { return None; }
      lineOffs := lineOffs[i := lineOff.value];
      cur := lineOff.next;
      i := i + 1;
    }
    r := Some(lineOffs);
  }

  /** The row-table loop's invariant survives one row. */
  lemma RowsLoopStep(data: seq<byte>, base: nat, lineOffs: seq<u32>, width: u32, l: nat,
                     rows: seq<seq<byte>>, all: Option<seq<seq<byte>>>)
    requires l < |lineOffs|
    requires all == PrependRows(rows, DecodeRows(data, base, lineOffs[l..], width))
    ensures DecodeRow(data, base + lineOffs[l], width, 0).None? ==> all.None?
    ensures DecodeRow(data, base + lineOffs[l], width, 0).Some? ==>
      all == PrependRows(rows + [DecodeRow(data, base + lineOffs[l], width, 0).value], DecodeRows(data, base, lineOffs[l + 1..], width))
  {
    assert lineOffs[l..][0] == lineOffs[l];
    assert lineOffs[l..][1..] == lineOffs[l + 1..];
    var rest := DecodeRows(data, base, lineOffs[l + 1..], width);
    if DecodeRow(data, base + lineOffs[l], width, 0).Some? && rest.Some? {
      var row := DecodeRow(data, base + lineOffs[l], width, 0).value;
      assert rows + ([row] + rest.value) == (rows + [row]) + rest.value;
    }
  }

  /** The second loop of readFormat1Pixels: rows appended in table order. */
  method ReadRows(data: seq<byte>, base: nat, lineOffs: seq<u32>, width: u32) returns (r: Option<seq<byte>>)
    ensures r.Some? <==> DecodeRows(data, base, lineOffs, width).Some?
    ensures r.Some? ==> r.value == Flatten(DecodeRows(data, base, lineOffs, width).value)
  {
    var pixels: seq<byte> := [];
    ghost var rows: seq<seq<byte>> := [];
    ghost var all := DecodeRows(data, base, lineOffs, width);
    assert lineOffs[0..] == lineOffs;
    assert all.Some? ==> [] + all.value == all.value;
    var l := 0;
    while l < |lineOffs|
      invariant 0 <= l <= |lineOffs|
      invariant all == PrependRows(rows, DecodeRows(data, base, lineOffs[l..], width))
      invariant pixels == Flatten(rows)
    {
      var row := ReadRow(data, base + lineOffs[l], width);
      RowsLoopStep(data, base, lineOffs, width, l, rows, all);
      if row.None? {
        return None;
      }
      FlattenAppend(rows, row.value);
      pixels := pixels + row.value;
      rows := rows + [row.value];
      l := l + 1;
    }
    assert lineOffs[l..] == [];
    assert rows + [] == rows;
    r := Some(pixels);
  }

  /** readFormat1Pixels: the row-offset table is read from the cursor (just after
    * the frame record), then every row is decoded at dim.Offset + 32 + its offset. */
  method ReadFormat1Pixels(data: seq<byte>, pos: nat, dim: DefImage, imgMeta: ImageMeta)
    returns (r: Result<seq<byte>, PixelError>)
    ensures r == Format1Pixels(data, pos, dim.offset, imgMeta.width, imgMeta.height)
  {
    var lineOffs := ReadLineOffsets(data, pos, imgMeta.height);
    if lineOffs.None? { return Err(LineOffsetTruncated); }
    var pixels := ReadRows(data, dim.offset + 32, lineOffs.value, imgMeta.width);
    if pixels.None? { return Err(RowTruncated); }
    r := Ok(pixels.value);
  }

  // ---------------------------------------------------------------- lemmas

  /** A row stops only once its counter reaches the width, so it contributes at
    * least `width - total` bytes (the counter may wrap, but never exceeds the
    * true count). */
  lemma {:induction false} RowAtLeastWidth(data: seq<byte>, p: nat, width: u32, total: u32)
    requires DecodeRow(data, p, width, total).Some?
    ensures total + |DecodeRow(data, p, width, total).value| >= width
    decreases |data| - p
  {
    if total < width {
      var run := RunAt(data, p).value;
      RowAtLeastWidth(data, run.1, width, (total + |run.0|) % Modulus);
    }
  }

  lemma {:induction false} FlattenAtLeast(rows: seq<seq<byte>>, width: nat)
    requires forall i :: 0 <= i < |rows| ==> |rows[i]| >= width
    ensures |Flatten(rows)| >= width * |rows|
    decreases |rows|
  {
    if rows != [] {
      assert forall i :: 0 <= i < |rows| - 1 ==> rows[1..][i] == rows[i + 1];
      FlattenAtLeast(rows[1..], width);
      assert width * |rows| == width + width * (|rows| - 1);
    }
  }

  lemma {:induction false} FlattenExact(rows: seq<seq<byte>>, width: nat)
    requires forall i :: 0 <= i < |rows| ==> |rows[i]| == width
    ensures |Flatten(rows)| == width * |rows|
    decreases |rows|
  {
    if rows != [] {
      assert forall i :: 0 <= i < |rows| - 1 ==> rows[1..][i] == rows[i + 1];
      FlattenExact(rows[1..], width);
      assert width * |rows| == width + width * (|rows| - 1);
    }
  }

  lemma {:induction false} RowsAtLeastWidth(data: seq<byte>, base: nat, offs: seq<u32>, width: u32)
    requires DecodeRows(data, base, offs, width).Some?
    ensures forall i :: 0 <= i < |offs| ==> |DecodeRows(data, base, offs, width).value[i]| >= width
    decreases |offs|
  {
    if offs != [] {
      RowAtLeastWidth(data, base + offs[0], width, 0);
      RowsAtLeastWidth(data, base, offs[1..], width);
    }
  }

  /** A decoded format-1 frame holds at least Width * Height palette indices,
    * and exactly that many when every row ends exactly at the width. */
  lemma Format1Size(data: seq<byte>, pos: nat, offset: nat, width: u32, height: u32)
    requires Format1Pixels(data, pos, offset, width, height).Ok?
    ensures |Format1Pixels(data, pos, offset, width, height).value| >= width * height
    ensures var rows := DecodeRows(data, offset + 32, LineOffsetsAt(data, pos, height), width).value;
      (forall i :: 0 <= i < |rows| ==> |rows[i]| == width) ==>
        |Format1Pixels(data, pos, offset, width, height).value| == width * height
  {
    var offs := LineOffsetsAt(data, pos, height);
    var rows := DecodeRows(data, offset + 32, offs, width).value;
    RowsAtLeastWidth(data, offset + 32, offs, width);
    FlattenAtLeast(rows, width);
    if forall i :: 0 <= i < |rows| ==> |rows[i]| == width {
      FlattenExact(rows, width);
    }
  }

  // ------------------------------------------------------ reference encoder

  /** A row written as literal runs of at most 255 bytes: the encoder that the
    * decoder is checked against. */
  function EncodeLiteralRow(row: seq<byte>): (e: seq<byte>)
    decreases |row|
  {
    if row == [] then []
    else
      var n := if |row| < 255 then |row| else 255;
      [Literal, n - 1] + row[..n] + EncodeLiteralRow(row[n..])
  }

  /** One step of DecodeRow: a run read at p, then the rest of the row. */
  lemma DecodeRowStep(data: seq<byte>, p: nat, width: u32, total: u32, run: seq<byte>, next: nat)
    requires total < width && RunAt(data, p) == Some((run, next))
    ensures DecodeRow(data, p, width, total) == PrependBytes(run, DecodeRow(data, next, width, (total + |run|) % Modulus))
  {
  }

  /** The layout of an encoded non-empty row: its first chunk, then the rest encoded. */
  lemma EncodeHead(row: seq<byte>, n: nat)
    requires row != [] && n == (if |row| < 255 then |row| else 255)
    ensures var e := EncodeLiteralRow(row); var e2 := EncodeLiteralRow(row[n..]);
      |e| == 2 + n + |e2| && e[0] == Literal && e[1] == n - 1 &&
      e[2 .. 2 + n] == row[..n] && e[2 + n ..] == e2
  {
    var e := EncodeLiteralRow(row);
    var c := [Literal, n - 1] + row[..n];
    assert e == c + EncodeLiteralRow(row[n..]);
    assert e[2 .. 2 + n] == c[2..];
  }

  /** A slice of a slice of the file is a slice of the file. */
  lemma SubSlice(data: seq<byte>, p: nat, e: seq<byte>, i: nat, j: nat)
    requires p + |e| <= |data| && data[p .. p + |e|] == e && i <= j <= |e|
    ensures data[p + i .. p + j] == e[i .. j]
  {
    var d := data[p .. p + |e|];
    var sub := data[p + i .. p + j];
    assert forall k :: 0 <= k < |sub| ==> sub[k] == d[i + k];
  }

  /** A literal chunk of n bytes at p followed by the rest of the row decodes to the whole row. */
  lemma LiteralChunkStep(data: seq<byte>, p: nat, row: seq<byte>, n: nat, width: u32, total: u32)
    requires total + |row| == width && 0 < n <= 255 && n <= |row| && p + 2 + n <= |data|
    requires data[p] == Literal && data[p + 1] == n - 1 && data[p + 2 .. p + 2 + n] == row[..n]
    requires DecodeRow(data, p + 2 + n, width, total + n) == Some(row[n..])
    ensures DecodeRow(data, p, width, total) == Some(row)
  {
    assert RunLength(data[p + 1]) == n;
    assert LiteralRun(data, p + 2, n) == row[..n];
    assert After(data, p + 2, n) == p + 2 + n;
    assert RunAt(data, p) == Some((row[..n], p + 2 + n));
    assert (total + n) % Modulus == total + n;
    DecodeRowStep(data, p, width, total, row[..n], p + 2 + n);
    assert row[..n] + row[n..] == row;
  }

  /** Where the parts of an encoded non-empty row lie in the file: the chunk
    * header, its n literal bytes, then the encoding of the rest of the row. */
  lemma EncodedChunkAt(data: seq<byte>, p: nat, row: seq<byte>, n: nat)
    requires row != [] && n == (if |row| < 255 then |row| else 255)
    requires p + |EncodeLiteralRow(row)| <= |data|
    requires data[p .. p + |EncodeLiteralRow(row)|] == EncodeLiteralRow(row)
    ensures p + 2 + n <= |data| && data[p] == Literal && data[p + 1] == n - 1
    ensures data[p + 2 .. p + 2 + n] == row[..n]
    ensures var e2 := EncodeLiteralRow(row[n..]);
      p + 2 + n + |e2| <= |data| && data[p + 2 + n .. p + 2 + n + |e2|] == e2
  {
    var e := EncodeLiteralRow(row);
    EncodeHead(row, n);
    SubSlice(data, p, e, 0, 2);
    SubSlice(data, p, e, 2, 2 + n);
    SubSlice(data, p, e, 2 + n, |e|);
    assert data[p] == e[0] && data[p + 1] == e[1] by {
      assert data[p .. p + 2][0] == data[p] && data[p .. p + 2][1] == data[p + 1];
    }
  }

  /** The encoding of the rest of the row lies just after the first chunk. */
  lemma EncodedTailAt(data: seq<byte>, p: nat, row: seq<byte>, n: nat)
    requires row != [] && n == (if |row| < 255 then |row| else 255)
    requires p + |EncodeLiteralRow(row)| <= |data|
    requires data[p .. p + |EncodeLiteralRow(row)|] == EncodeLiteralRow(row)
    ensures var e2 := EncodeLiteralRow(row[n..]);
      p + 2 + n + |e2| <= |data| && data[p + 2 + n .. p + 2 + n + |e2|] == e2
  {
    EncodedChunkAt(data, p, row, n);
  }

  /** An encoded row decodes to the row once its tail does. */
  lemma EncodedRowStep(data: seq<byte>, p: nat, row: seq<byte>, n: nat, width: u32, total: u32)
    requires total + |row| == width
    requires row != [] && n == (if |row| < 255 then |row| else 255)
    requires p + |EncodeLiteralRow(row)| <= |data|
    requires data[p .. p + |EncodeLiteralRow(row)|] == EncodeLiteralRow(row)
    requires DecodeRow(data, p + 2 + n, width, total + n) == Some(row[n..])
    ensures DecodeRow(data, p, width, total) == Some(row)
  {
    EncodedChunkAt(data, p, row, n);
    LiteralChunkStep(data, p, row, n, width, total);
  }

  /** Decoding an encoded row, wherever it sits in the file, gives the row back. */
  lemma {:induction false} DecodeEncodedRow(data: seq<byte>, p: nat, row: seq<byte>, width: u32, total: u32)
    requires total + |row| == width
    requires p + |EncodeLiteralRow(row)| <= |data|
    requires data[p .. p + |EncodeLiteralRow(row)|] == EncodeLiteralRow(row)
    ensures DecodeRow(data, p, width, total) == Some(row)
    decreases |row|
  {
    if row != [] {
      var n := if |row| < 255 then |row| else 255;
      EncodedTailAt(data, p, row, n);
      DecodeEncodedRow(data, p + 2 + n, row[n..], width, total + n);
      EncodedRowStep(data, p, row, n, width, total);
    }
  }
}
