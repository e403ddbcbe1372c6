# Fixed-window multi-scalar multiplication (bellperson CPU path)

This project models the CPU multi-scalar multiplication of bellperson's
Groth16 prover (`src/groth16/utils.rs`) and proves it correct:

- `PublicInputs`: the scalar source, either a slice of scalar
  representations or a getter function.
- `precompute_fixed_window`: builds one table row per base point, holding
  the multiples `1·P, …, (2^w − 1)·P`.
- `MultiscalarPrecompOwned` / `MultiscalarPrecompRef`: the table and its
  offset views (`at_point`).
- `multiscalar`: the single-threaded fixed-window accumulator. It reads
  each scalar window by window, most significant window first, from its
  64-bit limbs. Each pass doubles the accumulator `w` times, then adds the
  table entry for every point's digit, one point behind the digit read
  (the prefetch pipeline).
- `par_multiscalar`: the chunked scheduler. Worker threads claim chunks
  from a shared counter. Each runs `multiscalar` on the chunk against the
  table view at the chunk's first point and adds the result into its own
  accumulator. The accumulators are summed at the end.

Modelling choices:

- **Group.** A group element is an integer under addition. Doubling is
  `x + x` and `k·P` is `k * P`. Affine and projective forms are the same
  value, and mixed addition is `+`. The proofs need only what a
  commutative group provides.
- **Scalars.** A scalar representation is a sequence of limbs below
  `2^64`, least significant limb first. The digit read
  `(limb >> s) & mask` is written as `(limb / 2^s) % 2^w`. The table's
  `Valid` predicate ties `window_mask` to `2^w − 1`.
- **Panics.**
  - The explicit "Unsupported multiscalar window size" panic becomes an
    `Err(UnsupportedWindowSize)` result.
  - With window size 0, `nbits % 0` traps before that check; this becomes
    `Err(RemainderByZero)`.
  - Out-of-bounds indexing panics become preconditions. Those are stated
    only for the case where the window size is accepted, because the error
    is raised before any index is taken.
- **Scheduler.** The threads run one claim at a time. The parameter
  `owner` says which thread took each counter value, so every
  interleaving of claims is covered by one call of `RunWorkers`. Each
  thread's scratch buffer is a row of a two-dimensional array.

The main results:

- `Multiscalar` returns `Windowed`, the window-major accumulator.
- `WindowedIsNaive` proves that, on a table built by
  `PrecomputeFixedWindow`, this equals `Σ (k_m mod 2^nbits) · P_m`.
- `ParMultiscalar` returns the same value as `multiscalar` over all points
  at once, for every chunk assignment and every positive thread count.

## Model

| member | source | states |
|---|---|---|
| Pow2Arith.CeilDiv | src/groth16/utils.rs:176 | `(a + b − 1) / b` is the least `r` with `r·b ≥ a`, and is exactly `a / b` when `b` divides `a` |
| ScalarRepr.LimbIndexInRange | src/groth16/utils.rs:182 | when the limbs hold `nw` windows of width `w`, the limb index of every window `i < nw` is in range |
| ScalarRepr.Digit | src/groth16/utils.rs:182-194 | the shifted and masked limb read is a `w`-bit digit, below `2^w` |
| ScalarRepr.DigitIsBits | src/groth16/utils.rs:182-194 | the limb-local read of window `i` equals bits `[i·w, i·w + w)` of the whole scalar, as long as `w` divides 64 |
| ScalarRepr.ZeroScalarDigits | src/groth16/utils.rs:192-195 | every window of a zero scalar is 0, so it never selects a table entry |
| ScalarRepr.DigitSumIsLowBits | src/groth16/utils.rs:180-194 | the first `n` digits, weighted by `2^(w·i)`, sum to the scalar modulo `2^(w·n)` |
| ScalarRepr.DigitsReconstruct | src/groth16/utils.rs:159-176 | when `w` divides 64 and `nbits`, the `ceil(nbits / w)` digits reconstruct `k mod 2^nbits` |
| ScalarRepr.HornerIsDigitSum | src/groth16/utils.rs:180-187 | reading the digits most significant first, multiplying by `2^w` between digits, gives the same value as the weighted digit sum |
| PublicInput.Get | src/groth16/utils.rs:44-49 | `get(i)`: a slice is indexed at `i`, which must be in bounds; a getter is called at `i`. What is proved about it is stated by `GetterAgreesWithSlice`, `Scalars` and `GatherScalars` |
| PublicInput.Scalars | src/groth16/utils.rs:44-49 | the `n` scalars a source yields at indices `0 … n−1`: for a slice exactly its first `n` elements, for a getter its values at `0 … n−1` |
| PublicInput.GetterAgreesWithSlice | src/groth16/utils.rs:44-49 | a getter and a slice that agree index by index give the same scalars, namely the slice's first `n` elements |
| PrecompTable.AtPoint | src/groth16/utils.rs:81-89 | a view of a well-formed table is well-formed |
| PrecompTable.AtPointShape | src/groth16/utils.rs:113-121 | a view keeps the window size, mask and entry count, has `num_points − idx` points, and its row `j` is the owner's row `idx + j` |
| PrecompTable.AtPointTwice | src/groth16/utils.rs:113-121 | the view at `b` of the view at `a` is the owner's view at `a + b` |
| PrecompTable.AtPointTabulates | src/groth16/utils.rs:81-89 | a view of a table of multiples of `points` holds the multiples of `points[idx..]` |
| PrecompTable.PrecomputeRow | src/groth16/utils.rs:134-146 | a row holds `1·P, 2·P, …`: `table_entries` of them, or the single base point when `table_entries` is 0 |
| PrecompTable.PrecomputeFixedWindow | src/groth16/utils.rs:125-156 | the table is well-formed, has `2^w − 1` entries and mask, one row per point, and row `i` holds the multiples of `points[i]` |
| WindowedMsm.ValidCovers | src/groth16/utils.rs:129-155 | every row of a well-formed table has an entry for every nonzero `w`-bit digit |
| WindowedMsm.Multiscalar | src/groth16/utils.rs:160-212 | fails exactly when the window size does not divide both 64 and `nbits`, with the matching error; otherwise returns the window-major accumulator `Windowed` |
| WindowedMsm.AccumulateWindow | src/groth16/utils.rs:188-208 | one pass over the points, reading digits one point ahead of the addition, adds exactly `Σ_m Entry(row_m, digit_i(k_m))` |
| WindowedMsm.Double | src/groth16/utils.rs:185-187 | doubling `w` times multiplies by `2^w` |
| WindowedMsm.RangeSumPastTop | src/groth16/utils.rs:180 | no window above the top one contributes anything |
| WindowedMsm.WindowStep | src/groth16/utils.rs:185-208 | one pass (double `w` times, then add one entry per point) distributes over the per-point shares |
| WindowedMsm.AccByPoint | src/groth16/utils.rs:180-208 | the window-major accumulator equals the sum over points of each point's share |
| WindowedMsm.RangeSplit | src/groth16/utils.rs:279 | the sums over adjacent point ranges add up to the sum over their union |
| WindowedMsm.RangeShift | src/groth16/utils.rs:276-277 | a chunk read through a sub-slice of scalars and a table view equals that range of the full sum |
| WindowedMsm.EntryIsMultiple | src/groth16/utils.rs:195-207 | on a row of multiples of `P`, the entry for digit `d` is `d·P`, and nothing when `d` is 0 |
| WindowedMsm.ContributionIsMultiple | src/groth16/utils.rs:180-208 | a point's accumulated share is its Horner-read digits times the point |
| WindowedMsm.ContributionIsScalarMul | src/groth16/utils.rs:158-212 | over all windows, a point's share is `(k mod 2^nbits)·P` |
| WindowedMsm.RangeIsNaive | src/groth16/utils.rs:158-212 | the per-point shares sum to the naive product `Σ (k_m mod 2^nbits)·P_m` |
| WindowedMsm.WindowedIsNaive | src/groth16/utils.rs:158-212 | on a table of multiples, the window-major accumulator is the naive product `Σ (k_m mod 2^nbits)·P_m` |
| WindowedMsm.ZeroScalarContributesNothing | src/groth16/utils.rs:195-208 | a zero scalar adds nothing to the accumulator |
| ParallelMsm.ChunkSize | src/groth16/utils.rs:231-237 | the chunk is 256 points above 1024 points, 16 from 16 to 1024, and 1 below 16; it is never larger than a nonempty input |
| ParallelMsm.NumThreads | src/groth16/utils.rs:239 | the thread count is the smaller of `max_threads` and the chunk count |
| ParallelMsm.ThreadsRun | src/groth16/utils.rs:239 | some thread runs exactly when `max_threads > 0` and there is at least one point |
| ParallelMsm.ClaimFindsWork | src/groth16/utils.rs:255-259 | counter value `i` starts a chunk exactly when `i` is below `ceil(num_points / chunk_size)` |
| ParallelMsm.Covered | src/groth16/utils.rs:261-264 | the clamped end of claimed work never passes `num_points` |
| ParallelMsm.ChunkBounds | src/groth16/utils.rs:256-264 | chunk `i` is `[i·chunk, min(i·chunk + chunk, num_points))` |
| ParallelMsm.AllCovered | src/groth16/utils.rs:255-259 | once every chunk is claimed, all points are covered |
| ParallelMsm.ClaimChunk | src/groth16/utils.rs:255-265 | a claim has work exactly when its counter value is below the chunk count; it then yields a nonempty range of at most `chunk_size` points that extends the covered prefix |
| ParallelMsm.SeqSumUpdate | src/groth16/utils.rs:279 | adding `x` into one thread's accumulator adds `x` to the sum of all accumulators |
| ParallelMsm.SeqSumZeros | src/groth16/utils.rs:286-293 | a reduction over zero accumulators is zero |
| ParallelMsm.AddChunk | src/groth16/utils.rs:276-279 | adding a chunk's result into a thread accumulator extends the sum to the covered prefix plus that chunk |
| ParallelMsm.GatherScalars | src/groth16/utils.rs:267-275 | the chunk's scalars are `get(start + j)` for every `j` in the chunk; a getter's values are written into the first `end − start` slots of this thread's scratch row; no other slot changes, and nothing changes for a slice |
| ParallelMsm.ChunkIsRange | src/groth16/utils.rs:276-277 | `multiscalar` on a sub-slice and a view at `start` equals the `[start, start + n)` range of the whole sum |
| ParallelMsm.RunChunk | src/groth16/utils.rs:265-277 | a chunk's result is that chunk's range of the whole sum, or the window-size error; the scratch storage changes only as gathering the chunk writes it (this thread's row, for a getter) |
| ParallelMsm.RunWorkers | src/groth16/utils.rs:242-284 | for every assignment of chunks to threads, the thread accumulators sum to the whole multi-scalar product; the window-size error is raised exactly when some chunk runs |
| ParallelMsm.Reduce | src/groth16/utils.rs:286-293 | the final result is the sum of the thread accumulators |
| ParallelMsm.ParMultiscalar | src/groth16/utils.rs:215-294 | fails exactly when the window size is unsupported and a chunk runs; is zero when no thread runs; otherwise equals `multiscalar` over all points at once, whatever the schedule and the positive thread count; with no thread running, nothing is demanded of the scalars or the table rows |

## Left out

- The thread pool (`POOL`, `src/groth16/utils.rs:12-21`) and the rayon
  parallel iterators: threads are sequentialised. The atomic counter's
  memory ordering is not modelled. Every assignment of counter values to
  threads is covered through `owner`.
- Cache prefetching (`prefetch`, `src/groth16/utils.rs:23-31`): it is a
  performance hint with no effect on values.
- Curve arithmetic: points are integers. The affine/projective conversion
  (`into_projective`, `into_affine`) is the identity, so the model shows
  neither the cost nor any rounding of those conversions.
- The `MultiscalarPrecomp` accessors `window_size`, `window_mask` and
  `tables`: they read fields, which the model reads directly. Lifetimes and
  the borrowed-versus-owned distinction are not modelled. Both kinds of
  table are one datatype, and a view's rows are a suffix of the owner's.
- `usize` and `u64` overflow of counters and indices is not modelled.
  Integers are unbounded, except that the window size is below 64, since
  `1 << window_size` overflows otherwise.
- The GPU path (`src/gpu/utils.rs`) is not part of this model.
- WindowedMsm.Multiscalar: requires `numPoints` rows of the table and
  `numPoints` scalars, each covering `nbits` bits. The source indexes a
  row only for a nonzero digit, so for all-zero windows it would accept a
  shorter table.
- ParallelMsm.ParMultiscalar: with `max_threads == 0` no chunk runs, so
  the result is zero even for an unsupported window size; this follows the
  code, and the inputs are then not required to be in range. When threads
  run, it inherits the row-count requirement of `WindowedMsm.Multiscalar`.
- ParallelMsm.ChunkSize: the larger tier starts above 1024 points, as the
  code has it (`num_points > 1024`).
