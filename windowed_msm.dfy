/**
 * `multiscalar`: fixed-window multi-scalar multiplication over a
 * precomputed table, reading each scalar most significant window first and
 * adding the table entry for each point's window digit.
 *
 * The specification is layered. `Acc` is the window-major sum the loop
 * builds; `RangeSum` regroups it point by point (`AccByPoint`); and each
 * point's share is `(k mod 2^nbits) · P` once the row holds the multiples of
 * `P` (`ContributionIsScalarMul`), so the whole is the naive sum
 * `Σ (k_m mod 2^nbits) · P_m` (`WindowedIsNaive`).
 */
module WindowedMsm {
  import opened Pow2Arith
  import opened ScalarRepr
  import opened PrecompTable

  /** Why `multiscalar` gives up: `nbits % 0` with a zero window, or the window-size check. */
  datatype Error = RemainderByZero | UnsupportedWindowSize

  datatype Result<T> = Ok(value: T) | Err(error: Error)

  /** The table entry for digit `d`: nothing for `0`, `row[d - 1]` otherwise. */
  function Entry(row: seq<Point>, d: nat): Point
    requires d <= |row|
  {
    if d == 0 then 0 else row[d - 1]
  }

  /** Rows `[lo, hi)` exist and each has an entry for every nonzero `w`-bit digit. */
  predicate RowsCover(rows: seq<seq<Point>>, lo: nat, hi: nat, w: nat)
  {
    lo <= hi <= |rows| && forall m :: lo <= m < hi ==> Pow2(w) - 1 <= |rows[m]|
  }

  /** Every row of a well-formed table covers the digits of its window size. */
  lemma ValidCovers(table: Precomp, lo: nat, hi: nat)
    requires Valid(table) && lo <= hi <= |table.tables|
    ensures RowsCover(table.tables, lo, hi, table.windowSize)
  {
  }

  /** `Σ_{m < n} Entry(rows[m], digit i of k[m])`: what one window pass adds. */
  function WindowSum(k: seq<Repr>, rows: seq<seq<Point>>, n: nat, i: nat, w: nat): Point
    requires DividesLimb(w) && n <= |k| && RowsCover(rows, 0, n, w)
  {
    if n == 0 then 0 else WindowSum(k, rows, n - 1, i, w) + Entry(rows[n - 1], Digit(k[n - 1], i, w))
  }

  /** The accumulator after the passes for windows `nw - 1` down to `i`: double `w` times, then add a pass. */
  function Acc(k: seq<Repr>, rows: seq<seq<Point>>, n: nat, w: nat, i: nat, nw: nat): Point
    requires DividesLimb(w) && n <= |k| && RowsCover(rows, 0, n, w)
    decreases nw - i
  {
    if i >= nw then 0 else Acc(k, rows, n, w, i + 1, nw) * Pow2(w) + WindowSum(k, rows, n, i, w)
  }

  /** The value `multiscalar` returns for the first `n` scalars and rows. */
  function Windowed(k: seq<Repr>, rows: seq<seq<Point>>, n: nat, w: nat, nbits: nat): Point
    requires DividesLimb(w) && n <= |k| && RowsCover(rows, 0, n, w)
  {
    Acc(k, rows, n, w, 0, CeilDiv(nbits, w))
  }

  /** One point's share of the accumulator from window `i` up. */
  function Contribution(s: Repr, row: seq<Point>, w: nat, i: nat, nw: nat): Point
    requires DividesLimb(w) && Pow2(w) - 1 <= |row|
    decreases nw - i
  {
    if i >= nw then 0 else Contribution(s, row, w, i + 1, nw) * Pow2(w) + Entry(row, Digit(s, i, w))
  }

  /** `Σ_{lo <= m < hi}` of the points' shares from window `i` up. */
  function RangeSum(k: seq<Repr>, rows: seq<seq<Point>>, lo: nat, hi: nat, w: nat, i: nat, nw: nat): Point
    requires DividesLimb(w) && hi <= |k| && RowsCover(rows, lo, hi, w)
    decreases hi - lo
  {
    if hi <= lo then 0 else RangeSum(k, rows, lo, hi - 1, w, i, nw) + Contribution(k[hi - 1], rows[hi - 1], w, i, nw)
  }

  /** `Σ_{m < n} (k_m mod 2^nbits) · P_m`: the multi-scalar product computed naively. */
  function NaiveMsm(k: seq<Repr>, points: seq<Point>, n: nat, nbits: nat): Point
    requires n <= |k| && n <= |points|
  {
    if n == 0 then 0 else NaiveMsm(k, points, n - 1, nbits) + (Value(k[n - 1]) % Pow2(nbits)) * points[n - 1]
  }

  lemma Factor(a: int, c: int, p: int, x: int, y: int)
    ensures (a * p + x) + (c * p + y) == (a + c) * p + (x + y)
  {
  }

  /** Past the top window nothing is left to add, for every point. */
  lemma {:induction false} RangeSumPastTop(k: seq<Repr>, rows: seq<seq<Point>>, n: nat, w: nat, i: nat, nw: nat)
    requires DividesLimb(w) && n <= |k| && RowsCover(rows, 0, n, w) && i >= nw
    ensures RangeSum(k, rows, 0, n, w, i, nw) == 0
  {
    if n > 0 {
      RangeSumPastTop(k, rows, n - 1, w, i, nw);
    }
  }

  /** One window pass splits across the points: doubling and adding commute with summing over points. */
  lemma {:induction false} WindowStep(k: seq<Repr>, rows: seq<seq<Point>>, n: nat, w: nat, i: nat, nw: nat)
    requires DividesLimb(w) && n <= |k| && RowsCover(rows, 0, n, w) && i < nw
    ensures RangeSum(k, rows, 0, n, w, i, nw) == RangeSum(k, rows, 0, n, w, i + 1, nw) * Pow2(w) + WindowSum(k, rows, n, i, w)
  {
    if n > 0 {
      WindowStep(k, rows, n - 1, w, i, nw);
      Factor(RangeSum(k, rows, 0, n - 1, w, i + 1, nw), Contribution(k[n - 1], rows[n - 1], w, i + 1, nw), Pow2(w),
             WindowSum(k, rows, n - 1, i, w), Entry(rows[n - 1], Digit(k[n - 1], i, w)));
    }
  }

  /** The window-major accumulator equals the point-major sum of each point's share. */
  lemma {:induction false} AccByPoint(k: seq<Repr>, rows: seq<seq<Point>>, n: nat, w: nat, i: nat, nw: nat)
    requires DividesLimb(w) && n <= |k| && RowsCover(rows, 0, n, w)
    ensures Acc(k, rows, n, w, i, nw) == RangeSum(k, rows, 0, n, w, i, nw)
    decreases nw - i
  {
    if i < nw {
      AccByPoint(k, rows, n, w, i + 1, nw);
      WindowStep(k, rows, n, w, i, nw);
    } else {
      RangeSumPastTop(k, rows, n, w, i, nw);
    }
  }

  /** Adjacent ranges of points add up. */
  lemma {:induction false} RangeSplit(k: seq<Repr>, rows: seq<seq<Point>>, lo: nat, mid: nat, hi: nat, w: nat, i: nat, nw: nat)
    requires DividesLimb(w) && lo <= mid <= hi <= |k| && RowsCover(rows, lo, hi, w)
    ensures RangeSum(k, rows, lo, mid, w, i, nw) + RangeSum(k, rows, mid, hi, w, i, nw) == RangeSum(k, rows, lo, hi, w, i, nw)
    decreases hi - mid
  {
    if mid < hi {
      RangeSplit(k, rows, lo, mid, hi - 1, w, i, nw);
    }
  }

  /** A range read from offset `lo` of the full input sums as the same range read from a sub-slice starting there. */
  lemma {:induction false} RangeShift(k: seq<Repr>, rows: seq<seq<Point>>, k2: seq<Repr>, rows2: seq<seq<Point>>, lo: nat, len: nat, w: nat, i: nat, nw: nat)
    requires DividesLimb(w) && lo + len <= |k| && RowsCover(rows, lo, lo + len, w)
    requires len <= |k2| && len <= |rows2|
    requires forall j :: 0 <= j < len ==> k2[j] == k[lo + j] && rows2[j] == rows[lo + j]
    ensures RowsCover(rows2, 0, len, w)
    ensures RangeSum(k2, rows2, 0, len, w, i, nw) == RangeSum(k, rows, lo, lo + len, w, i, nw)
  {
    if len > 0 {
      RangeShift(k, rows, k2, rows2, lo, len - 1, w, i, nw);
      assert k2[len - 1] == k[lo + len - 1] && rows2[len - 1] == rows[lo + len - 1];
    }
  }

  lemma Scale(h: int, p: int, pw: int, d: int)
    ensures (h * p) * pw + d * p == (h * pw + d) * p
  {
  }

  /** With the multiples of `P` in the row, the table entry for digit `d` is `d · P`. */
  lemma EntryIsMultiple(row: seq<Point>, point: Point, d: nat, w: nat)
    requires Multiples(row, point, Pow2(w) - 1) && d < Pow2(w)
    ensures Entry(row, d) == d * point
  {
    if d > 0 {
      assert row[d - 1] == (d - 1 + 1) * point;
    }
  }

  /** A point's share from window `i` up is its Horner-read digits times the point. */
  lemma {:induction false} ContributionIsMultiple(s: Repr, row: seq<Point>, point: Point, w: nat, i: nat, nw: nat)
    requires DividesLimb(w) && Multiples(row, point, Pow2(w) - 1)
    ensures Contribution(s, row, w, i, nw) == Horner(Digits(s, nw, w), i, w) * point
    decreases nw - i
  {
    if i < nw {
      var ds := Digits(s, nw, w);
      ContributionIsMultiple(s, row, point, w, i + 1, nw);
      EntryIsMultiple(row, point, Digit(s, i, w), w);
      assert ds[i] == Digit(s, i, w);
      Scale(Horner(ds, i + 1, w), point, Pow2(w), ds[i]);
    }
  }

  /** Over all `ceil(nbits / w)` windows a point's share is `(k mod 2^nbits) · P`. */
  lemma ContributionIsScalarMul(s: Repr, row: seq<Point>, point: Point, w: nat, nbits: nat)
    requires WindowOk(w, nbits) && Multiples(row, point, Pow2(w) - 1)
    ensures Contribution(s, row, w, 0, CeilDiv(nbits, w)) == (Value(s) % Pow2(nbits)) * point
  {
    var nw := CeilDiv(nbits, w);
    ContributionIsMultiple(s, row, point, w, 0, nw);
    HornerIsDigitSum(Digits(s, nw, w), w);
    DigitsReconstruct(s, nbits, w);
  }

  lemma {:induction false} RangeIsNaive(k: seq<Repr>, rows: seq<seq<Point>>, points: seq<Point>, n: nat, w: nat, nbits: nat)
    requires WindowOk(w, nbits) && n <= |k| && n <= |points| && RowsCover(rows, 0, n, w)
    requires forall m :: 0 <= m < n ==> Multiples(rows[m], points[m], Pow2(w) - 1)
    ensures RangeSum(k, rows, 0, n, w, 0, CeilDiv(nbits, w)) == NaiveMsm(k, points, n, nbits)
  {
    if n > 0 {
      RangeIsNaive(k, rows, points, n - 1, w, nbits);
      ContributionIsScalarMul(k[n - 1], rows[n - 1], points[n - 1], w, nbits);
    }
  }

  /**
   * On a table of multiples of `points`, the windowed accumulator is the
   * naive multi-scalar product `Σ (k_m mod 2^nbits) · P_m`.
   */
  lemma WindowedIsNaive(k: seq<Repr>, rows: seq<seq<Point>>, points: seq<Point>, n: nat, w: nat, nbits: nat)
    requires WindowOk(w, nbits) && n <= |k| && n <= |points| && RowsCover(rows, 0, n, w)
    requires forall m :: 0 <= m < n ==> Multiples(rows[m], points[m], Pow2(w) - 1)
    ensures Windowed(k, rows, n, w, nbits) == NaiveMsm(k, points, n, nbits)
  {
    AccByPoint(k, rows, n, w, 0, CeilDiv(nbits, w));
    RangeIsNaive(k, rows, points, n, w, nbits);
  }

  /** A zero scalar adds nothing: every one of its windows selects no table entry. */
  lemma {:induction false} ZeroScalarContributesNothing(s: Repr, row: seq<Point>, w: nat, i: nat, nw: nat)
    requires DividesLimb(w) && Pow2(w) - 1 <= |row| && Value(s) == 0
    ensures Contribution(s, row, w, i, nw) == 0
    decreases nw - i
  {
    if i < nw {
      ZeroScalarContributesNothing(s, row, w, i + 1, nw);
      ZeroScalarDigits(s, i, w);
    }
  }

  /** What the window check and the loops need of the inputs once the window size is accepted. */
  predicate MultiscalarArgs(k: seq<Repr>, rows: seq<seq<Point>>, n: nat, nbits: nat)
  {
    && n <= |k| && n <= |rows|
    && (nbits > 0 ==> |rows| > 0)
    && forall m :: 0 <= m < n ==> Covers(k[m], nbits)
  }

  /**
   * `multiscalar`: reject window sizes that do not divide both the limb and
   * `nbits`; otherwise, for each window from the most significant down,
   * double the accumulator `w` times and add one pass over the points.
   */
  method Multiscalar(k: seq<Repr>, table: Precomp, numPoints: nat, nbits: nat) returns (r: Result<Point>)
    requires Valid(table)
    requires WindowOk(table.windowSize, nbits) ==> MultiscalarArgs(k, table.tables, numPoints, nbits)
    ensures r.Ok? <==> WindowOk(table.windowSize, nbits)
    ensures r.Err? ==> r.error == (if table.windowSize == 0 then RemainderByZero else UnsupportedWindowSize)
    ensures r.Ok? ==> r.value == Windowed(k, table.tables, numPoints, table.windowSize, nbits)
  {
    var w := table.windowSize;
    if w == 0 {
      return Err(RemainderByZero);
    }
    if nbits % w != 0 || BitsPerLimb % w != 0 {
      return Err(UnsupportedWindowSize);
    }
    var rows := table.tables;
    var numWindows := (nbits + w - 1) / w;
    assert numWindows == CeilDiv(nbits, w);
    ValidCovers(table, 0, numPoints);
    var result: Point := 0;
    var i := numWindows;
    while i > 0
      invariant 0 <= i <= numWindows
      invariant result == Acc(k, rows, numPoints, w, i, numWindows)
    {
      i := i - 1;
      result := Double(result, w);
      result := AccumulateWindow(k, table, numPoints, nbits, i, result);
    }
    r := Ok(result);
  }

  /**
   * One window pass with the one-behind pipeline: digit `m` is read and its
   * row selected while the entry chosen for point `m - 1` is added; the last
   * pending entry is added after the loop.
   */
  method AccumulateWindow(k: seq<Repr>, table: Precomp, numPoints: nat, nbits: nat, i: nat, base: Point)
    returns (result: Point)
    requires Valid(table) && WindowOk(table.windowSize, nbits)
    requires MultiscalarArgs(k, table.tables, numPoints, nbits) && i < CeilDiv(nbits, table.windowSize)
    ensures RowsCover(table.tables, 0, numPoints, table.windowSize)
    ensures result == base + WindowSum(k, table.tables, numPoints, i, table.windowSize)
  {
    var w := table.windowSize;
    var rows := table.tables;
    var limb := (i * w) / BitsPerLimb;
    var windowInLimb := i % (BitsPerLimb / w);
    forall m | 0 <= m < numPoints
      ensures limb < |k[m]|
    {
      LimbIndexInRange(k[m], i, w, CeilDiv(nbits, w));
    }
    result := base;
    var prevIdx: nat := 0;
    var prevTable := rows[0];
    var tbl := rows[0];
    var m := 0;
    while m < numPoints
      invariant m <= numPoints
      invariant prevTable == tbl && |tbl| == RowLength(table.tableEntries)
      invariant prevIdx < Pow2(w)
      invariant m == 0 ==> prevIdx == 0
      invariant m > 0 ==> prevIdx == Digit(k[m - 1], i, w)
      invariant m > 0 && prevIdx > 0 ==> prevTable == rows[m - 1]
      invariant result + Entry(prevTable, prevIdx) == base + WindowSum(k, rows, m, i, w)
    {
      // `(limb >> (windowInLimb * w)) & windowMask`, with the mask `2^w - 1`
      var idx := (k[m][limb] / Pow2(windowInLimb * w)) % (table.windowMask + 1);
      assert idx == Digit(k[m], i, w);
      if idx > 0 {
        tbl := rows[m];
      }
      if prevIdx > 0 && m > 0 {
        result := result + prevTable[prevIdx - 1];
      }
      prevIdx := idx;
      prevTable := tbl;
      m := m + 1;
    }
    if prevIdx > 0 {
      result := result + prevTable[prevIdx - 1];
    }
  }

  /** `w` doublings: `x · 2^w`. */
  method Double(x: Point, w: nat) returns (y: Point)
    ensures y == x * Pow2(w)
  {
    y := x;
    var doubled := 0;
    while doubled < w
      invariant doubled <= w
      invariant y == x * Pow2(doubled)
    {
      y := y + y;
      doubled := doubled + 1;
    }
  }
}
