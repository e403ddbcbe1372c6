/**
 * The fixed-window precomputation table (`MultiscalarPrecompOwned`) and its
 * offset views (`MultiscalarPrecompRef`).
 *
 * Group elements are modelled as integers under addition: doubling is
 * `x + x`, mixed addition and general addition are `+`, and the affine and
 * projective forms of a point are the same value; `k·P` is `k * P`.
 */
module PrecompTable {
  import opened Pow2Arith

  /** A group element. */
  type Point = int

  /**
   * The fields shared by the owned table and a view: the point count, the
   * window size `w`, the mask `2^w - 1`, the entries per row and the rows.
   * A view carries the owning table's rows from some offset on; slicing a
   * sequence stands for borrowing a suffix of the owner's storage.
   */
  datatype Precomp = Precomp(
    numPoints: nat,
    windowSize: nat,
    windowMask: nat,
    tableEntries: nat,
    tables: seq<seq<Point>>)

  /** Row length produced for `tableEntries`: the base point is pushed before the loop runs. */
  function RowLength(tableEntries: nat): nat
  {
    if tableEntries == 0 then 1 else tableEntries
  }

  /** The shape every table built by `PrecomputeFixedWindow`, and every view of one, has. */
  predicate Valid(p: Precomp)
  {
    && p.windowSize < 64
    && p.windowMask == Pow2(p.windowSize) - 1
    && p.tableEntries == p.windowMask
    && p.numPoints == |p.tables|
    && forall i :: 0 <= i < |p.tables| ==> |p.tables[i]| == RowLength(p.tableEntries)
  }

  /** `row` starts with the multiples `1·point, …, entries·point`. */
  predicate Multiples(row: seq<Point>, point: Point, entries: nat)
  {
    entries <= |row| && forall j :: 0 <= j < entries ==> row[j] == (j + 1) * point
  }

  /** Row `i` holds the multiples of `points[i]`. */
  predicate Tabulates(tables: seq<seq<Point>>, points: seq<Point>, entries: nat)
  {
    |tables| == |points| && forall i :: 0 <= i < |tables| ==> Multiples(tables[i], points[i], entries)
  }

  /**
   * `at_point(idx)`: the view from point `idx` on. Subtracting past
   * `num_points` or slicing past the rows panics, so `idx` is within both.
   */
  function AtPoint(p: Precomp, idx: nat): (v: Precomp)
    requires idx <= p.numPoints && idx <= |p.tables|
    ensures Valid(p) ==> Valid(v)
  {
    Precomp(p.numPoints - idx, p.windowSize, p.windowMask, p.tableEntries, p.tables[idx..])
  }

  /** A view keeps the window fields, drops `idx` points, and its row `j` is the owner's row `idx + j`. */
  lemma AtPointShape(p: Precomp, idx: nat)
    requires idx <= p.numPoints && idx <= |p.tables|
    ensures AtPoint(p, idx).numPoints == p.numPoints - idx
    ensures AtPoint(p, idx).windowSize == p.windowSize
    ensures AtPoint(p, idx).windowMask == p.windowMask
    ensures AtPoint(p, idx).tableEntries == p.tableEntries
    ensures |AtPoint(p, idx).tables| == |p.tables| - idx
    ensures forall j :: 0 <= j < |p.tables| - idx ==> AtPoint(p, idx).tables[j] == p.tables[idx + j]
  {
  }

  /** Taking a view of a view at `b` is the view of the owner at `a + b`. */
  lemma AtPointTwice(p: Precomp, a: nat, b: nat)
    requires a <= p.numPoints && a <= |p.tables|
    requires b <= p.numPoints - a && b <= |p.tables| - a
    ensures AtPoint(AtPoint(p, a), b) == AtPoint(p, a + b)
  {
    assert p.tables[a..][b..] == p.tables[a + b..];
  }

  /** A view of a table of `points` tabulates the same points from the offset on. */
  lemma AtPointTabulates(p: Precomp, points: seq<Point>, idx: nat)
    requires idx <= p.numPoints && idx <= |p.tables|
    requires Tabulates(p.tables, points, p.tableEntries)
    ensures Tabulates(AtPoint(p, idx).tables, points[idx..], p.tableEntries)
  {
    var v := AtPoint(p, idx);
    forall i | 0 <= i < |v.tables|
      ensures Multiples(v.tables[i], points[idx..][i], p.tableEntries)
    {
      assert v.tables[i] == p.tables[idx + i];
      assert points[idx..][i] == points[idx + i];
      assert Multiples(p.tables[idx + i], points[idx + i], p.tableEntries);
    }
  }

  /**
   * One row: push the base point, then add the base point to a running sum
   * `tableEntries - 1` times, pushing each sum.
   */
  method PrecomputeRow(point: Point, tableEntries: nat) returns (table: seq<Point>)
    ensures |table| == RowLength(tableEntries)
    ensures forall j :: 0 <= j < |table| ==> table[j] == (j + 1) * point
  {
    table := [point];
    var curPrecompPoint := point;
    var j := 1;
    while j < tableEntries
      invariant 1 <= j <= RowLength(tableEntries)
      invariant |table| == j
      invariant curPrecompPoint == j * point
      invariant forall t :: 0 <= t < j ==> table[t] == (t + 1) * point
    {
      curPrecompPoint := curPrecompPoint + point;
      table := table + [curPrecompPoint];
      j := j + 1;
    }
  }

  /** `precompute_fixed_window`: one row of `2^w - 1` multiples per base point. */
  method PrecomputeFixedWindow(points: seq<Point>, windowSize: nat) returns (p: Precomp)
    requires windowSize < 64
    ensures Valid(p)
    ensures p.numPoints == |points| && p.windowSize == windowSize
    ensures p.tableEntries == Pow2(windowSize) - 1 && p.windowMask == Pow2(windowSize) - 1
    ensures Tabulates(p.tables, points, p.tableEntries)
    ensures windowSize == 0 ==> forall i :: 0 <= i < |points| ==> p.tables[i] == [points[i]]
  {
    var tableEntries := Pow2(windowSize) - 1;
    var numPoints := |points|;
    var tables: seq<seq<Point>> := [];
    var i := 0;
    while i < numPoints
      invariant 0 <= i <= numPoints
      invariant |tables| == i
      invariant forall t :: 0 <= t < i ==> |tables[t]| == RowLength(tableEntries)
      invariant forall t :: 0 <= t < i ==> Multiples(tables[t], points[t], RowLength(tableEntries))
    {
      var table := PrecomputeRow(points[i], tableEntries);
      tables := tables + [table];
      i := i + 1;
    }
    p := Precomp(numPoints, windowSize, Pow2(windowSize) - 1, tableEntries, tables);
  }
}
