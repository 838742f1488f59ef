/**
 How the packet index is cut into one contiguous range per worker thread.

 With `n` packets and 16 threads each worker gets `1 + n / 16` packets:
 worker `i` takes `[i * per, min(i * per + per, n))`.  The start is not
 clamped to `n`, so for many `n` a late worker's start lies past `n` and the
 slice `packets[start..end]` panics.
 */
module Partition {

  const NTHREADS: nat := 16

  /** A half-open range `[start, end)` of packet ids. */
  datatype Range = Range(start: nat, end: nat)

  predicate Contains(r: Range, x: int) {
    r.start <= x < r.end
  }

  /** Packet id `x` lies in one of the ranges `rs`. */
  ghost predicate Covered(rs: seq<Range>, x: int) {
    exists k :: 0 <= k < |rs| && Contains(rs[k], x)
  }

  function Min(a: nat, b: nat): nat {
    if a <= b then a else b
  }

  /** `npackets_per_thread`: one more than the floor of `n / 16`, not the ceiling. */
  function ChunkSize(n: nat): (per: nat)
    ensures per >= 1
    ensures NTHREADS * (per - 1) <= n < NTHREADS * per
  {
    1 + n / NTHREADS
  }

  /** The range handed to worker `i` (`start` and `end` in the spawning loop). */
  function WorkerRange(n: nat, i: nat): Range {
    var per := ChunkSize(n);
    var start := i * per;
    Range(start, Min(start + per, n))
  }

  /** The ranges of all 16 workers, in spawning order. */
  function WorkerRanges(n: nat): (rs: seq<Range>)
    ensures |rs| == NTHREADS
    ensures forall i :: 0 <= i < NTHREADS ==> rs[i] == WorkerRange(n, i)
  {
    seq(NTHREADS, i requires 0 <= i => WorkerRange(n, i))
  }

  /**
   `rs` cuts `[0, n)` into consecutive ranges: the first starts at 0, each
   starts where the previous one ended, none is reversed, the last ends at `n`.
   */
  ghost predicate Tiles(rs: seq<Range>, n: nat) {
    && |rs| > 0
    && rs[0].start == 0
    && (forall k :: 0 <= k < |rs| ==> rs[k].start <= rs[k].end)
    && (forall k :: 0 <= k < |rs| - 1 ==> rs[k].end == rs[k + 1].start)
    && rs[|rs| - 1].end == n
  }

  lemma {:induction false} TilesOrdered(rs: seq<Range>, n: nat, i: nat, j: nat)
    requires Tiles(rs, n)
    requires i < j < |rs|
    ensures rs[i].end <= rs[j].start
    decreases j - i
  {
    if i + 1 < j {
      TilesOrdered(rs, n, i, j - 1);
    }
  }

  lemma {:induction false} TilesFind(rs: seq<Range>, n: nat, x: nat, k: nat)
    requires Tiles(rs, n)
    requires k < |rs| && rs[k].start <= x < n
    ensures Covered(rs, x)
    decreases |rs| - k
  {
    if !Contains(rs[k], x) {
      TilesFind(rs, n, x, k + 1);
    }
  }

  /** A tiling puts every packet id of `[0, n)` in exactly one range, and nothing else in any. */
  lemma TilesPartition(rs: seq<Range>, n: nat)
    requires Tiles(rs, n)
    ensures forall x :: 0 <= x < n ==> Covered(rs, x)
    ensures forall k1, k2, x :: 0 <= k1 < |rs| && 0 <= k2 < |rs| && Contains(rs[k1], x) && Contains(rs[k2], x) ==> k1 == k2
    ensures forall k, x :: 0 <= k < |rs| && Contains(rs[k], x) ==> 0 <= x < n
  {
    forall x | 0 <= x < n
      ensures Covered(rs, x)
    {
      TilesFind(rs, n, x, 0);
    }
    forall k1, k2, x | 0 <= k1 < |rs| && 0 <= k2 < |rs| && Contains(rs[k1], x) && Contains(rs[k2], x)
      ensures k1 == k2
    {
      if k1 < k2 {
        TilesOrdered(rs, n, k1, k2);
      } else if k2 < k1 {
        TilesOrdered(rs, n, k2, k1);
      }
    }
    forall k, x | 0 <= k < |rs| && Contains(rs[k], x)
      ensures 0 <= x < n
    {
      if k < |rs| - 1 {
        TilesOrdered(rs, n, k, |rs| - 1);
      }
    }
  }

  lemma MulMonotone(a: nat, b: nat, c: nat)
    requires a <= b
    ensures a * c <= b * c
  {
  }

  /** A worker before the last one ends where the next one starts, inside the index. */
  lemma NextStartInside(k: nat, per: nat, n: nat)
    requires k + 1 <= NTHREADS - 1
    requires (NTHREADS - 1) * per <= n
    ensures k * per + per == (k + 1) * per <= n
  {
    MulMonotone(k + 1, NTHREADS - 1, per);
  }

  /** Before the last worker, each range ends where the next begins. */
  lemma WorkerBoundary(n: nat, k: nat)
    requires k < NTHREADS - 1
    requires (NTHREADS - 1) * ChunkSize(n) <= n
    ensures WorkerRange(n, k).end == WorkerRange(n, k + 1).start
    ensures WorkerRange(n, k).start <= WorkerRange(n, k).end
  {
    NextStartInside(k, ChunkSize(n), n);
  }

  /** The last worker's range ends at `n`. */
  lemma LastWorkerEnd(n: nat)
    requires (NTHREADS - 1) * ChunkSize(n) <= n
    ensures WorkerRange(n, NTHREADS - 1).end == n
    ensures WorkerRange(n, NTHREADS - 1).start <= n
  {
    var per := ChunkSize(n);
    assert NTHREADS * per == (NTHREADS - 1) * per + per;
  }

  /** When the last worker's start is within the index, the 16 ranges tile `[0, n)`. */
  lemma WorkerRangesTile(n: nat)
    requires (NTHREADS - 1) * ChunkSize(n) <= n
    ensures Tiles(WorkerRanges(n), n)
  {
    var rs := WorkerRanges(n);
    forall k | 0 <= k < NTHREADS - 1
      ensures rs[k].end == rs[k + 1].start && rs[k].start <= rs[k].end
    {
      WorkerBoundary(n, k);
    }
    LastWorkerEnd(n);
  }

  /**
   Every worker's slice is well formed exactly when the last worker's start
   is at most `n`; with `n = 16q + r` that is `q + r >= 15`.
   */
  lemma WorkerSlicesValid(n: nat)
    ensures (forall i :: 0 <= i < NTHREADS ==> WorkerRange(n, i).start <= WorkerRange(n, i).end)
        <==> (NTHREADS - 1) * ChunkSize(n) <= n
    ensures (NTHREADS - 1) * ChunkSize(n) <= n <==> n / NTHREADS + n % NTHREADS >= NTHREADS - 1
  {
    var per := ChunkSize(n);
    if (NTHREADS - 1) * per <= n {
      forall i | 0 <= i < NTHREADS
        ensures WorkerRange(n, i).start <= WorkerRange(n, i).end
      {
        MulMonotone(i, NTHREADS - 1, per);
      }
    } else {
      assert WorkerRange(n, NTHREADS - 1).start > WorkerRange(n, NTHREADS - 1).end;
    }
    var q, r := n / NTHREADS, n % NTHREADS;
    assert n == NTHREADS * q + r;
    assert (NTHREADS - 1) * per == (NTHREADS - 1) * q + (NTHREADS - 1);
  }

  /** From 240 packets on, every worker's slice is well formed. */
  lemma LargeIndexSafe(n: nat)
    requires n >= NTHREADS * (NTHREADS - 1)
    ensures (NTHREADS - 1) * ChunkSize(n) <= n
  {
    WorkerSlicesValid(n);
  }

  /** With 100 packets each worker gets 7, and the last one is handed `[105, 100)`. */
  lemma WorkerRangesAt100()
    ensures ChunkSize(100) == 7
    ensures WorkerRange(100, 15) == Range(105, 100)
  {
  }

  /** An empty capture already makes the second worker's slice `[1, 0)`. */
  lemma WorkerRangesAtZero()
    ensures WorkerRange(0, 1) == Range(1, 0)
  {
  }

  /** The range of worker `i` with its start clamped to `n`. */
  function ClampedRange(n: nat, i: nat): Range {
    var per := ChunkSize(n);
    var start := Min(i * per, n);
    Range(start, Min(start + per, n))
  }

  function ClampedRanges(n: nat): (rs: seq<Range>)
    ensures |rs| == NTHREADS
    ensures forall i :: 0 <= i < NTHREADS ==> rs[i] == ClampedRange(n, i)
  {
    seq(NTHREADS, i requires 0 <= i => ClampedRange(n, i))
  }

  /** With the start clamped, the 16 ranges tile `[0, n)` for every `n`. */
  lemma ClampedRangesTile(n: nat)
    ensures Tiles(ClampedRanges(n), n)
  {
    var per := ChunkSize(n);
    var rs := ClampedRanges(n);
    forall k | 0 <= k < NTHREADS - 1
      ensures rs[k].end == rs[k + 1].start
    {
      assert (k + 1) * per == k * per + per;
    }
    assert NTHREADS * per == (NTHREADS - 1) * per + per;
  }

  /** Where the source's ranges are well formed, clamping changes nothing. */
  lemma ClampedAgrees(n: nat)
    requires (NTHREADS - 1) * ChunkSize(n) <= n
    ensures ClampedRanges(n) == WorkerRanges(n)
  {
    var per := ChunkSize(n);
    forall i | 0 <= i < NTHREADS
      ensures ClampedRange(n, i) == WorkerRange(n, i)
    {
      MulMonotone(i, NTHREADS - 1, per);
    }
  }
}
