/**
 * `par_multiscalar`: the input is cut into chunks of `chunkSize` points;
 * worker threads take chunk numbers from a shared counter, run
 * `multiscalar` on each chunk against the table view at the chunk's first
 * point, and add the result into their own accumulator; the accumulators
 * are summed at the end.
 *
 * The threads are run one claim at a time. `owner[c]` is the thread that
 * took counter value `c`; any assignment of chunks to threads is allowed,
 * and every thread makes one last claim past the final chunk and stops.
 * The result is the same for every assignment.
 */
module ParallelMsm {
  import opened Pow2Arith
  import opened ScalarRepr
  import opened PublicInput
  import opened PrecompTable
  import opened WindowedMsm

  /**
   * `Repr::default()`, the value a thread's scalar storage starts with: the
   * all-zero representation, here at the four-limb width of a BLS12-381
   * scalar. No slot is read before a chunk writes it.
   */
  const DefaultRepr: Repr := [0, 0, 0, 0]

  /** The work granularity in points: 16, or 256 for more than 1024 points, or 1 when that exceeds the input. */
  function ChunkSize(numPoints: nat): (c: nat)
    ensures 1 <= c
    ensures numPoints > 0 ==> c <= numPoints
    ensures c == 1 || c == 16 || c == 256
    ensures numPoints > 1024 ==> c == 256
    ensures 16 <= numPoints <= 1024 ==> c == 16
    ensures numPoints < 16 ==> c == 1
  {
    var c := if numPoints > 1024 then 256 else 16;
    if c > numPoints then 1 else c
  }

  /** The number of chunks, `ceil(numPoints / chunkSize)`. */
  function NumChunks(numPoints: nat): nat
  {
    CeilDiv(numPoints, ChunkSize(numPoints))
  }

  /** `max_threads.min(numChunks)`: no more threads than chunks. */
  function NumThreads(maxThreads: nat, numPoints: nat): (t: nat)
    ensures t <= maxThreads && t <= NumChunks(numPoints)
    ensures t == maxThreads || t == NumChunks(numPoints)
  {
    if maxThreads < NumChunks(numPoints) then maxThreads else NumChunks(numPoints)
  }

  /** Counter value `i` starts a chunk exactly when it is below the chunk count. */
  lemma ClaimFindsWork(numPoints: nat, chunk: nat, i: nat)
    requires chunk > 0
    ensures i < CeilDiv(numPoints, chunk) <==> i * chunk < numPoints
  {
    var r := CeilDiv(numPoints, chunk);
    if i < r {
      MulMonotone(chunk, i, r - 1);
      assert chunk * (r - 1) == (r - 1) * chunk;
    } else {
      MulMonotone(chunk, r, i);
    }
  }

  /** Some thread runs exactly when threads are allowed and there is at least one point. */
  lemma ThreadsRun(maxThreads: nat, numPoints: nat)
    ensures NumThreads(maxThreads, numPoints) > 0 <==> maxThreads > 0 && numPoints > 0
  {
    var c := ChunkSize(numPoints);
    var r := CeilDiv(numPoints, c);
    if numPoints == 0 && r > 0 {
      MulAtLeast(r, c);
    }
  }

  /** The points covered once counter values below `work` have been claimed: `min(work · chunk, numPoints)`. */
  function Covered(work: nat, chunk: nat, numPoints: nat): (c: nat)
    ensures c <= numPoints
  {
    if work * chunk < numPoints then work * chunk else numPoints
  }

  /**
   * Chunk `i` is `[i · chunk, min(i · chunk + chunk, numPoints))`, holds
   * between one and `chunk` points, and ends where the covered prefix after
   * claim `i` ends.
   */
  lemma ChunkBounds(numPoints: nat, chunk: nat, i: nat)
    requires chunk > 0 && i * chunk < numPoints
    ensures Covered(i, chunk, numPoints) == i * chunk
    ensures Covered(i + 1, chunk, numPoints) == if i * chunk + chunk > numPoints then numPoints else i * chunk + chunk
  {
    assert (i + 1) * chunk == i * chunk + chunk;
  }

  /**
   * What counter value `i` yields: whether `i · chunk` is still inside the
   * input, and then the chunk `[i · chunk, min(i · chunk + chunk, numPoints))`.
   */
  method ClaimChunk(i: nat, chunk: nat, numPoints: nat) returns (hasWork: bool, startIdx: nat, endIdx: nat)
    requires chunk > 0
    ensures hasWork <==> i < CeilDiv(numPoints, chunk)
    ensures hasWork ==> startIdx == Covered(i, chunk, numPoints) < endIdx == Covered(i + 1, chunk, numPoints)
    ensures hasWork ==> endIdx - startIdx <= chunk
    ensures !hasWork ==> Covered(i, chunk, numPoints) == Covered(i + 1, chunk, numPoints) == numPoints
  {
    ClaimFindsWork(numPoints, chunk, i);
    startIdx := i * chunk;
    endIdx := startIdx;
    hasWork := startIdx < numPoints;
    if hasWork {
      endIdx := startIdx + chunk;
      if endIdx > numPoints {
        endIdx := numPoints;
      }
      ChunkBounds(numPoints, chunk, i);
    } else {
      AllCovered(numPoints, chunk, i);
      AllCovered(numPoints, chunk, i + 1);
    }
  }

  /** Once every chunk is claimed, all points are covered. */
  lemma AllCovered(numPoints: nat, chunk: nat, work: nat)
    requires chunk > 0 && work >= CeilDiv(numPoints, chunk)
    ensures Covered(work, chunk, numPoints) == numPoints
  {
    ClaimFindsWork(numPoints, chunk, work);
  }

  /** `Σ s`. */
  function SeqSum(s: seq<Point>): Point
  {
    if |s| == 0 then 0 else SeqSum(s[..|s| - 1]) + s[|s| - 1]
  }

  /** Adding `x` into one accumulator adds `x` to the sum of all of them. */
  lemma {:induction false} SeqSumUpdate(s: seq<Point>, t: nat, x: Point)
    requires t < |s|
    ensures SeqSum(s[t := s[t] + x]) == SeqSum(s) + x
  {
    var u := s[t := s[t] + x];
    if t < |s| - 1 {
      assert u[..|u| - 1] == s[..|s| - 1][t := s[t] + x];
      SeqSumUpdate(s[..|s| - 1], t, x);
    } else {
      assert u[..|u| - 1] == s[..|s| - 1];
    }
  }

  /** Accumulators that all start at zero sum to zero. */
  lemma {:induction false} SeqSumZeros(s: seq<Point>)
    requires forall j :: 0 <= j < |s| ==> s[j] == 0
    ensures SeqSum(s) == 0
  {
    if |s| > 0 {
      SeqSumZeros(s[..|s| - 1]);
    }
  }

  /** A thread adding a chunk's share to its accumulator extends the covered prefix by that chunk. */
  lemma AddChunk(S: seq<Repr>, rows: seq<seq<Point>>, thr: seq<Point>, tid: nat, x: Point, mid: nat, hi: nat, w: nat, nw: nat)
    requires DividesLimb(w) && mid <= hi <= |S| && RowsCover(rows, 0, hi, w) && tid < |thr|
    requires SeqSum(thr) == RangeSum(S, rows, 0, mid, w, 0, nw)
    requires x == RangeSum(S, rows, mid, hi, w, 0, nw)
    ensures SeqSum(thr[tid := thr[tid] + x]) == RangeSum(S, rows, 0, hi, w, 0, nw)
  {
    SeqSumUpdate(thr, tid, x);
    RangeSplit(S, rows, 0, mid, hi, w, 0, nw);
  }

  /** Every counter value below the chunk count names a thread that exists. */
  predicate Schedule(owner: seq<nat>, maxThreads: nat, numPoints: nat)
  {
    NumThreads(maxThreads, numPoints) > 0 ==>
      |owner| >= NumChunks(numPoints) &&
      forall c :: 0 <= c < NumChunks(numPoints) ==> owner[c] < NumThreads(maxThreads, numPoints)
  }

  /** What the chunks need of the inputs once the window size is accepted. */
  predicate ParArgs(k: PublicInputs, rows: seq<seq<Point>>, numPoints: nat, nbits: nat)
  {
    && HasPrefix(k, numPoints)
    && numPoints <= |rows|
    && forall i :: 0 <= i < numPoints ==> InRange(k, i) && Covers(Get(k, i), nbits)
  }

  /**
   * What gathering chunk `[start, end)` writes into the scratch storage: a
   * getter's values into the first `end - start` slots of thread `tid`'s
   * row; every other slot, and every slot for a slice, keeps its value.
   */
  function Gathered(k: PublicInputs, start: nat, end: nat, tid: nat, t: nat, j: nat, before: Repr): Repr
  {
    if k.Getter? && t == tid && start + j < end then k.f(start + j) else before
  }

  /** The scalars `multiscalar` sees for chunk `[start, end)`: the slice from `start`, or the getter's values copied into this thread's scratch row. */
  method GatherScalars(k: PublicInputs, start: nat, end: nat, scratch: array2<Repr>, tid: nat) returns (scalars: seq<Repr>)
    requires start <= end && end - start <= scratch.Length1 && tid < scratch.Length0
    requires k.Slice? ==> start <= |k.inputs|
    modifies scratch
    ensures HasPrefix(k, end) ==> |scalars| >= end - start
    ensures HasPrefix(k, end) ==> forall j :: 0 <= j < end - start ==> scalars[j] == Get(k, start + j)
    ensures forall t, j :: 0 <= t < scratch.Length0 && 0 <= j < scratch.Length1 ==> scratch[t, j] == Gathered(k, start, end, tid, t, j, old(scratch[t, j]))
  {
    match k
    case Slice(s) =>
      scalars := s[start..];
      assert HasPrefix(k, end) ==> forall j :: 0 <= j < end - start ==> scalars[j] == s[start + j];
    case Getter(getter) =>
      var i := start;
      while i < end
        invariant start <= i <= end
        invariant forall j :: 0 <= j < i - start ==> scratch[tid, j] == getter(start + j)
        invariant forall t, j :: 0 <= t < scratch.Length0 && t != tid && 0 <= j < scratch.Length1 ==> scratch[t, j] == old(scratch[t, j])
        invariant forall j :: i - start <= j < scratch.Length1 ==> scratch[tid, j] == old(scratch[tid, j])
      {
        scratch[tid, i - start] := getter(i);
        i := i + 1;
      }
      scalars := seq(scratch.Length1, j requires 0 <= j < scratch.Length1 reads scratch => scratch[tid, j]);
      forall j | 0 <= j < end - start
        ensures scalars[j] == Get(k, start + j)
      {
        assert scalars[j] == scratch[tid, j] == getter(start + j);
      }
  }

  /** The multiscalar of one chunk, read through a sub-slice and a table view, is that chunk's range of the whole sum. */
  lemma ChunkIsRange(S: seq<Repr>, table: Precomp, scalars: seq<Repr>, start: nat, numItems: nat, nbits: nat)
    requires Valid(table) && WindowOk(table.windowSize, nbits)
    requires start + numItems <= |S| && start + numItems <= |table.tables|
    requires numItems <= |scalars|
    requires forall j :: 0 <= j < numItems ==> scalars[j] == S[start + j]
    ensures RowsCover(AtPoint(table, start).tables, 0, numItems, table.windowSize)
    ensures RowsCover(table.tables, start, start + numItems, table.windowSize)
    ensures Windowed(scalars, AtPoint(table, start).tables, numItems, table.windowSize, nbits)
         == RangeSum(S, table.tables, start, start + numItems, table.windowSize, 0, CeilDiv(nbits, table.windowSize))
  {
    var w := table.windowSize;
    var sub := AtPoint(table, start);
    AtPointShape(table, start);
    ValidCovers(table, start, start + numItems);
    RangeShift(S, table.tables, scalars, sub.tables, start, numItems, w, 0, CeilDiv(nbits, w));
    AccByPoint(scalars, sub.tables, numItems, w, 0, CeilDiv(nbits, w));
  }

  /**
   * One claimed chunk `[start, end)`, run by thread `tid`: gather its
   * scalars, take the table view at its first point, run `multiscalar`.
   */
  method RunChunk(k: PublicInputs, table: Precomp, numPoints: nat, nbits: nat, start: nat, end: nat, scratch: array2<Repr>, tid: nat)
    returns (acc: Result<Point>)
    requires Valid(table)
    requires WindowOk(table.windowSize, nbits) ==> ParArgs(k, table.tables, numPoints, nbits)
    requires !WindowOk(table.windowSize, nbits) ==> start == 0
    requires start < end <= numPoints && end - start <= scratch.Length1 && tid < scratch.Length0
    modifies scratch
    ensures acc.Ok? <==> WindowOk(table.windowSize, nbits)
    ensures acc.Err? ==> acc.error == (if table.windowSize == 0 then RemainderByZero else UnsupportedWindowSize)
    ensures acc.Ok? ==> RowsCover(table.tables, 0, numPoints, table.windowSize)
    ensures acc.Ok? ==>
      acc.value == RangeSum(Scalars(k, numPoints), table.tables, start, end, table.windowSize, 0, CeilDiv(nbits, table.windowSize))
    ensures forall t, j :: 0 <= t < scratch.Length0 && 0 <= j < scratch.Length1 ==> scratch[t, j] == Gathered(k, start, end, tid, t, j, old(scratch[t, j]))
  {
    var numItems := end - start;
    var scalars := GatherScalars(k, start, end, scratch, tid);
    var subset := AtPoint(table, start);
    AtPointShape(table, start);
    if WindowOk(table.windowSize, nbits) {
      forall m | 0 <= m < numItems
        ensures Covers(scalars[m], nbits)
      {
        assert scalars[m] == Get(k, start + m);
      }
    }
    acc := Multiscalar(scalars, subset, numItems, nbits);
    if acc.Ok? {
      ValidCovers(table, 0, numPoints);
      ChunkIsRange(Scalars(k, numPoints), table, scalars, start, numItems, nbits);
    }
  }

  /**
   * The worker threads: each takes counter values until one lands past the
   * last chunk, running the chunk for every value below it and adding the
   * result into its own accumulator. The accumulators come back in thread
   * order; an unsupported window size fails the first chunk.
   */
  method RunWorkers(maxThreads: nat, k: PublicInputs, table: Precomp, numPoints: nat, nbits: nat, owner: seq<nat>)
    returns (r: Result<seq<Point>>)
    requires Valid(table)
    requires WindowOk(table.windowSize, nbits) && maxThreads > 0 ==> ParArgs(k, table.tables, numPoints, nbits)
    requires Schedule(owner, maxThreads, numPoints)
    ensures r.Err? <==> !WindowOk(table.windowSize, nbits) && maxThreads > 0 && numPoints > 0
    ensures r.Err? ==> r.error == (if table.windowSize == 0 then RemainderByZero else UnsupportedWindowSize)
    ensures r.Ok? ==> |r.value| == NumThreads(maxThreads, numPoints)
    ensures r.Ok? && maxThreads > 0 && numPoints > 0 ==> RowsCover(table.tables, 0, numPoints, table.windowSize)
    ensures r.Ok? && maxThreads > 0 && numPoints > 0 ==>
      SeqSum(r.value) == RangeSum(Scalars(k, numPoints), table.tables, 0, numPoints, table.windowSize, 0, CeilDiv(nbits, table.windowSize))
  {
    var w := table.windowSize;
    var chunkSize := ChunkSize(numPoints);
    var numChunks := NumChunks(numPoints);
    var numThreads := NumThreads(maxThreads, numPoints);
    ThreadsRun(maxThreads, numPoints);

    ghost var ok := WindowOk(w, nbits);
    ghost var run := ok && maxThreads > 0;
    ghost var S: seq<Repr> := if run then Scalars(k, numPoints) else [];
    ghost var nw := if run then CeilDiv(nbits, w) else 0;
    if run {
      ValidCovers(table, 0, numPoints);
    }

    var scratch := new Repr[numThreads, chunkSize]((_, _) => DefaultRepr);
    var thrResult: seq<Point> := seq(numThreads, _ => 0);
    SeqSumZeros(thrResult);
    var work := 0;
    var done := 0;
    while done < numThreads
      invariant done <= numThreads && |thrResult| == numThreads
      invariant (done == 0 && work <= numChunks) || work == numChunks + done
      invariant !ok ==> work == 0
      invariant run ==> SeqSum(thrResult) == RangeSum(S, table.tables, 0, Covered(work, chunkSize, numPoints), w, 0, nw)
      decreases numChunks + numThreads - work
    {
      var i := work;
      work := work + 1;
      var hasWork, startIdx, endIdx := ClaimChunk(i, chunkSize, numPoints);
      if !hasWork {
        done := done + 1;
      } else {
        var tid := owner[i];
        var acc := RunChunk(k, table, numPoints, nbits, startIdx, endIdx, scratch, tid);
        if acc.Err? {
          return Err(acc.error);
        }
        AddChunk(S, table.tables, thrResult, tid, acc.value, startIdx, endIdx, w, nw);
        thrResult := thrResult[tid := thrResult[tid] + acc.value];
      }
    }
    if run && numThreads > 0 {
      AllCovered(numPoints, chunkSize, work);
    }
    r := Ok(thrResult);
  }

  /**
   * `par_multiscalar`. An unsupported window size fails as soon as one
   * chunk runs; with no thread (no points, or `maxThreads == 0`) the result
   * is zero; otherwise the result is `multiscalar` over all the points at
   * once, whatever the schedule.
   */
  method ParMultiscalar(maxThreads: nat, k: PublicInputs, table: Precomp, numPoints: nat, nbits: nat, owner: seq<nat>)
    returns (r: Result<Point>)
    requires Valid(table)
    requires WindowOk(table.windowSize, nbits) && maxThreads > 0 ==> ParArgs(k, table.tables, numPoints, nbits)
    requires Schedule(owner, maxThreads, numPoints)
    ensures r.Err? <==> !WindowOk(table.windowSize, nbits) && maxThreads > 0 && numPoints > 0
    ensures r.Err? ==> r.error == (if table.windowSize == 0 then RemainderByZero else UnsupportedWindowSize)
    ensures r.Ok? && (maxThreads == 0 || numPoints == 0) ==> r.value == 0
    ensures r.Ok? && maxThreads > 0 && numPoints > 0 ==>
      r.value == Windowed(Scalars(k, numPoints), table.tables, numPoints, table.windowSize, nbits)
  {
    var accIntermediates := RunWorkers(maxThreads, k, table, numPoints, nbits, owner);
    if accIntermediates.Err? {
      return Err(accIntermediates.error);
    }
    var result := Reduce(accIntermediates.value);
    ThreadsRun(maxThreads, numPoints);
    if maxThreads > 0 && numPoints > 0 {
      AccByPoint(Scalars(k, numPoints), table.tables, numPoints, table.windowSize, 0, CeilDiv(nbits, table.windowSize));
    } else {
      SeqSumZeros(accIntermediates.value);
    }
    r := Ok(result);
  }

  /** The final accumulation of the per-thread results. */
  method Reduce(thrResult: seq<Point>) returns (result: Point)
    ensures result == SeqSum(thrResult)
  {
    result := 0;
    var t := 0;
    while t < |thrResult|
      invariant t <= |thrResult|
      invariant result == SeqSum(thrResult[..t])
    {
      assert thrResult[..t + 1][..t] == thrResult[..t];
      result := result + thrResult[t];
      t := t + 1;
    }
    assert thrResult[..t] == thrResult;
  }
}
