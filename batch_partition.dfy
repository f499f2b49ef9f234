/** How ExtractLodFiles splits the file table among its workers: worker l of
  * w (counted from 1) takes the l-th batch of n / w files, and the last
  * worker also takes the n % w files left over. */
module BatchPartition {

  /** The half-open slice [start, end) of the file table one worker extracts. */
  datatype Range = Range(start: int, end: int)

  function BatchRange(n: nat, w: nat, l: nat): Range
    requires 1 <= l <= w
  {
    var batchSize := n / w;
    var remainingFiles := n % w;
    Range(batchSize * (l - 1),
          if l == w && remainingFiles != 0 then batchSize * l + remainingFiles else batchSize * l)
  }

  /** Ranges that follow each other without gap or overlap from 0 to n. */
  predicate Tiles(rs: seq<Range>, n: int)
  {
    |rs| > 0 && rs[0].start == 0 && rs[|rs| - 1].end == n &&
    (forall k :: 0 <= k < |rs| ==> rs[k].start <= rs[k].end) &&
    (forall k :: 0 <= k < |rs| - 1 ==> rs[k].end == rs[k + 1].start)
  }

  /** Consecutive workers' ranges meet, and the ranges are ordered from 0 to n. */
  lemma BatchRangeFacts(n: nat, w: nat, l: nat)
    requires 1 <= l <= w
    ensures l == 1 ==> BatchRange(n, w, l).start == 0
    ensures BatchRange(n, w, l).start <= BatchRange(n, w, l).end
    ensures l < w ==> BatchRange(n, w, l).end == BatchRange(n, w, l + 1).start
    ensures l == w ==> BatchRange(n, w, l).end == n
  {
    var batchSize := n / w;
    assert batchSize * l == batchSize * (l - 1) + batchSize;
    if l == w {
      assert batchSize * w + n % w == n;
    }
  }

  /** The start/end loop of ExtractLodFiles, one range per worker. */
  method WorkerRanges(n: nat, w: nat) returns (ranges: seq<Range>)
    requires 1 <= w
    ensures |ranges| == w
    ensures forall k :: 0 <= k < w ==> ranges[k] == BatchRange(n, w, k + 1)
    ensures Tiles(ranges, n)
  {
    var batchSize := n / w;
    var remainingFiles := n % w;
    ranges := [];
    var l := 1;
    while l <= w
      invariant 1 <= l <= w + 1
      invariant |ranges| == l - 1
      invariant forall k :: 0 <= k < l - 1 ==> ranges[k] == BatchRange(n, w, k + 1)
    {
      var start := batchSize * (l - 1);
      var end := batchSize * l;
      if l == w && remainingFiles != 0 {
        end := end + remainingFiles;
      }
      ranges := ranges + [Range(start, end)];
      l := l + 1;
    }
    forall k | 0 <= k < w
      ensures k == 0 ==> ranges[k].start == 0
      ensures ranges[k].start <= ranges[k].end
      ensures k < w - 1 ==> ranges[k].end == ranges[k + 1].start
      ensures k == w - 1 ==> ranges[k].end == n
    {
      BatchRangeFacts(n, w, k + 1);
    }
  }

  /** Every file index below n belongs to some worker's range. */
  lemma {:induction false} TilesCover(rs: seq<Range>, n: int, i: int)
    requires Tiles(rs, n) && 0 <= i < n
    ensures exists k :: 0 <= k < |rs| && rs[k].start <= i < rs[k].end
    decreases |rs|
  {
    var last := |rs| - 1;
    if rs[last].start <= i {
      assert rs[last].start <= i < rs[last].end;
    } else {
      var front := rs[..last];
      assert last > 0;
      assert forall k :: 0 <= k < |front| ==> front[k] == rs[k];
      TilesCover(front, rs[last].start, i);
      var k :| 0 <= k < |front| && front[k].start <= i < front[k].end;
      assert rs[k].start <= i < rs[k].end;
    }
  }

  /** Earlier ranges end before later ones start, so no file goes to two workers. */
  lemma {:induction false} TilesOrdered(rs: seq<Range>, n: int, j: int, k: int)
    requires Tiles(rs, n) && 0 <= j < k < |rs|
    ensures rs[j].end <= rs[k].start
    decreases k - j
  {
    if j + 1 < k {
      TilesOrdered(rs, n, j + 1, k);
    }
  }

  /** With no more workers than files, every worker gets at least one file;
    * all get n / w of them except the last, which gets n / w + n % w. */
  lemma BatchSizes(n: nat, w: nat, l: nat)
    requires 1 <= l <= w <= n
    ensures BatchRange(n, w, l).end - BatchRange(n, w, l).start ==
      (if l == w then n / w + n % w else n / w)
    ensures BatchRange(n, w, l).start < BatchRange(n, w, l).end
  {
    var batchSize := n / w;
    assert batchSize * l == batchSize * (l - 1) + batchSize;
    assert batchSize >= 1 by {
      assert n == batchSize * w + n % w && n % w < w;
    }
  }

  /** Ten files over four workers: batches of two, the last worker taking four. */
  lemma TenFilesFourWorkers()
    ensures BatchRange(10, 4, 1) == Range(0, 2) && BatchRange(10, 4, 2) == Range(2, 4)
    ensures BatchRange(10, 4, 3) == Range(4, 6) && BatchRange(10, 4, 4) == Range(6, 10)
  {
  }
}
