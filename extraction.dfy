/** What the three LOD extractors share: the way a file's stored bytes are
  * read into a freshly allocated buffer, and the ways extraction fails. */
module Extraction {
  import opened Results
  import opened BinRead

  datatype ExtractError =
    | ZeroConcurrency   // an empty archive leaves no worker to start
    | Panic             // a negative WaitGroup counter, a division by zero or a negative make length
    | SeekFailed        // a seek to a negative offset
    | ReadFailed        // end of file before the first byte of a non-empty buffer
    | InflateFailed     // the zlib stream is malformed

  /** The byte at i, zero beyond the end of the file. */
  function ByteAt(data: seq<byte>, i: nat): byte
  {
    if i < |data| then data[i] else 0
  }

  /** os.File.Read into a new n-byte buffer at pos: an empty buffer always
    * succeeds; a non-empty one fails at end of file, and otherwise gets the
    * bytes that remain, up to n, with the rest of the buffer left zero. */
  function ReadBuffer(data: seq<byte>, pos: nat, n: nat): (r: Option<seq<byte>>)
    ensures r.Some? <==> n == 0 || pos < |data|
    ensures r.Some? ==> |r.value| == n
    ensures r.Some? ==> forall i :: 0 <= i < n ==> r.value[i] == ByteAt(data, pos + i)
  {
    if n == 0 then Some([])
    else if pos >= |data| then None
    else
      var got := if pos + n <= |data| then n else |data| - pos;
      Some(data[pos .. pos + got] + seq(n - got, _ => 0))
  }

  /** A buffer that lies inside the file is read as the file's own bytes. */
  lemma ReadBufferInside(data: seq<byte>, pos: nat, n: nat)
    requires pos + n <= |data|
    ensures ReadBuffer(data, pos, n) == Some(data[pos .. pos + n])
  {
    if n > 0 {
      var b := ReadBuffer(data, pos, n).value;
      assert forall i :: 0 <= i < n ==> b[i] == data[pos .. pos + n][i];
      assert b == data[pos .. pos + n];
    }
  }

  function Min(a: int, b: int): (m: int)
    ensures m <= a && m <= b && (m == a || m == b)
  {
    if a < b then a else b
  }
}
