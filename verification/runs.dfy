/** The horizontal run scan of `image_to_svg_vector`: each row is read left to
    right, fully transparent pixels are stepped over, and every maximal stretch
    of identical pixels becomes one run. */
module Runs {
  import opened Pixels

  /** A run of `len` identical pixels of colour `color`, starting at column `x`
      of row `row`. */
  datatype Run = Run(row: nat, x: nat, len: nat, color: Rgba) {
    /** One past the last column of the run. */
    function End(): nat {
      x + len
    }

    predicate Covers(i: int) {
      x <= i < x + len
    }
  }

  /** `r` is a legal run of row `y`, whose pixels are `row`: it is non-empty,
      lies within the row, is not transparent, and every pixel it spans has
      exactly its colour. */
  ghost predicate UniformRun(row: seq<Rgba>, y: nat, r: Run) {
    && r.row == y
    && r.len >= 1
    && r.End() <= |row|
    && !IsTransparent(r.color)
    && forall i :: r.x <= i < r.End() ==> row[i] == r.color
  }

  /** The run cannot be extended on the right: it stops at the row's end or
      before a pixel of another colour. */
  ghost predicate RightMaximal(row: seq<Rgba>, r: Run) {
    r.End() == |row| || (r.End() < |row| && row[r.End()] != r.color)
  }

  /** The run cannot be extended on the left either. */
  ghost predicate LeftMaximal(row: seq<Rgba>, r: Run) {
    r.x == 0 || (r.x <= |row| && row[r.x - 1] != r.color)
  }

  /** Runs appear in ascending column order and never overlap. */
  ghost predicate Ordered(runs: seq<Run>) {
    forall j, k :: 0 <= j < k < |runs| ==> runs[j].End() <= runs[k].x
  }

  /** Every pixel at or after column `from` that is not transparent lies in
      some run. */
  ghost predicate CoversOpaque(row: seq<Rgba>, runs: seq<Run>, from: nat) {
    forall i :: from <= i < |row| && !IsTransparent(row[i]) ==>
      exists k :: 0 <= k < |runs| && runs[k].Covers(i)
  }

  /** The full run-partition of a row: legal, maximal, ordered runs that,
      together with the transparent pixels, cover every column. */
  ghost predicate Partition(row: seq<Rgba>, y: nat, runs: seq<Run>) {
    && (forall k :: 0 <= k < |runs| ==> UniformRun(row, y, runs[k]))
    && (forall k :: 0 <= k < |runs| ==> RightMaximal(row, runs[k]) && LeftMaximal(row, runs[k]))
    && Ordered(runs)
    && CoversOpaque(row, runs, 0)
  }

  /** The column where the inner `while` stops: the first column at or after
      `x` whose pixel differs from `c`, or the row's end. */
  function RunEnd(row: seq<Rgba>, x: nat, c: Rgba): (e: nat)
    requires x <= |row|
    ensures x <= e <= |row|
    ensures forall i :: x <= i < e ==> row[i] == c
    ensures e == |row| || row[e] != c
    decreases |row| - x
  {
    if x < |row| && row[x] == c then RunEnd(row, x + 1, c) else x
  }

  /** The runs the scan emits on row `y` from column `x` to the end of the
      row. */
  function EncodeFrom(row: seq<Rgba>, y: nat, x: nat): (runs: seq<Run>)
    requires x <= |row|
    ensures forall k :: 0 <= k < |runs| ==> x <= runs[k].x && runs[k].row == y
    ensures forall k :: 0 <= k < |runs| ==> 1 <= runs[k].len && runs[k].End() <= |row|
    decreases |row| - x
  {
    if x == |row| then []
    else if IsTransparent(row[x]) then EncodeFrom(row, y, x + 1)
    else
      var e := RunEnd(row, x + 1, row[x]);
      [Run(y, x, e - x, row[x])] + EncodeFrom(row, y, e)
  }

  /** Every emitted run is a legal, uniform run of the row. */
  lemma {:induction false} EncodeFromUniform(row: seq<Rgba>, y: nat, x: nat)
    requires x <= |row|
    ensures forall k :: 0 <= k < |EncodeFrom(row, y, x)| ==> UniformRun(row, y, EncodeFrom(row, y, x)[k])
    decreases |row| - x
  {
    if x == |row| {
    } else if IsTransparent(row[x]) {
      EncodeFromUniform(row, y, x + 1);
    } else {
      var e := RunEnd(row, x + 1, row[x]);
      EncodeFromUniform(row, y, e);
    }
  }

  /** The `k`-th run emitted from column `x` has the colour of the pixel it
      starts on, which is not transparent. */
  lemma {:induction false} EncodeFromColorAt(row: seq<Rgba>, y: nat, x: nat, k: nat)
    requires x <= |row| && k < |EncodeFrom(row, y, x)|
    ensures var r := EncodeFrom(row, y, x)[k]; r.color == row[r.x] && !IsTransparent(r.color)
    decreases |row| - x
  {
    var runs := EncodeFrom(row, y, x);
    if IsTransparent(row[x]) {
      assert runs == EncodeFrom(row, y, x + 1);
      EncodeFromColorAt(row, y, x + 1, k);
    } else if k > 0 {
      var e := RunEnd(row, x + 1, row[x]);
      var rest := EncodeFrom(row, y, e);
      assert runs == [Run(y, x, e - x, row[x])] + rest;
      assert runs[k] == rest[k - 1];
      EncodeFromColorAt(row, y, e, k - 1);
    }
  }

  /** The `k`-th run emitted from column `x` stops at the row's end or
      before a pixel of another colour. */
  lemma {:induction false} EncodeFromRightMaximalAt(row: seq<Rgba>, y: nat, x: nat, k: nat)
    requires x <= |row| && k < |EncodeFrom(row, y, x)|
    ensures RightMaximal(row, EncodeFrom(row, y, x)[k])
    decreases |row| - x
  {
    var runs := EncodeFrom(row, y, x);
    if IsTransparent(row[x]) {
      assert runs == EncodeFrom(row, y, x + 1);
      EncodeFromRightMaximalAt(row, y, x + 1, k);
    } else if k > 0 {
      var e := RunEnd(row, x + 1, row[x]);
      var rest := EncodeFrom(row, y, e);
      assert runs == [Run(y, x, e - x, row[x])] + rest;
      assert runs[k] == rest[k - 1];
      EncodeFromRightMaximalAt(row, y, e, k - 1);
    }
  }

  /** The `k`-th run emitted from column `x` starts at `x` or after a pixel
      of another colour. */
  lemma {:induction false} EncodeFromLeftMaximalAt(row: seq<Rgba>, y: nat, x: nat, k: nat)
    requires x <= |row| && k < |EncodeFrom(row, y, x)|
    ensures var r := EncodeFrom(row, y, x)[k]; r.x == x || LeftMaximal(row, r)
    decreases |row| - x
  {
    var runs := EncodeFrom(row, y, x);
    if IsTransparent(row[x]) {
      assert runs == EncodeFrom(row, y, x + 1);
      EncodeFromLeftMaximalAt(row, y, x + 1, k);
      EncodeFromColorAt(row, y, x + 1, k);
    } else if k > 0 {
      var e := RunEnd(row, x + 1, row[x]);
      var rest := EncodeFrom(row, y, e);
      assert runs == [Run(y, x, e - x, row[x])] + rest;
      assert runs[k] == rest[k - 1];
      EncodeFromLeftMaximalAt(row, y, e, k - 1);
      EncodeFromColorAt(row, y, e, k - 1);
    }
  }

  /** Every emitted run is maximal: on the right it stops at the row's end or
      before a different pixel; on the left it starts at `x` or after a
      different pixel. */
  lemma EncodeFromMaximal(row: seq<Rgba>, y: nat, x: nat)
    requires x <= |row|
    ensures forall k :: 0 <= k < |EncodeFrom(row, y, x)| ==> RightMaximal(row, EncodeFrom(row, y, x)[k])
    ensures forall k :: 0 <= k < |EncodeFrom(row, y, x)| ==>
      var r := EncodeFrom(row, y, x)[k];
      r.x == x || LeftMaximal(row, r)
  {
    forall k | 0 <= k < |EncodeFrom(row, y, x)|
      ensures var r := EncodeFrom(row, y, x)[k]; RightMaximal(row, r) && (r.x == x || LeftMaximal(row, r))
    {
      EncodeFromRightMaximalAt(row, y, x, k);
      EncodeFromLeftMaximalAt(row, y, x, k);
    }
  }

  /** The emitted runs ascend and do not overlap. */
  lemma {:induction false} EncodeFromOrdered(row: seq<Rgba>, y: nat, x: nat)
    requires x <= |row|
    ensures Ordered(EncodeFrom(row, y, x))
    decreases |row| - x
  {
    if x == |row| {
    } else if IsTransparent(row[x]) {
      EncodeFromOrdered(row, y, x + 1);
    } else {
      var e := RunEnd(row, x + 1, row[x]);
      EncodeFromOrdered(row, y, e);
    }
  }

  /** An opaque pixel at or after column `x` lies in some run emitted from
      `x`. */
  lemma {:induction false} EncodeFromCoversAt(row: seq<Rgba>, y: nat, x: nat, i: nat)
    requires x <= i < |row| && !IsTransparent(row[i])
    ensures exists k :: 0 <= k < |EncodeFrom(row, y, x)| && EncodeFrom(row, y, x)[k].Covers(i)
    decreases |row| - x
  {
    var runs := EncodeFrom(row, y, x);
    if IsTransparent(row[x]) {
      assert runs == EncodeFrom(row, y, x + 1);
      EncodeFromCoversAt(row, y, x + 1, i);
    } else {
      var e := RunEnd(row, x + 1, row[x]);
      var rest := EncodeFrom(row, y, e);
      assert runs == [Run(y, x, e - x, row[x])] + rest;
      if i < e {
        assert runs[0].Covers(i);
      } else {
        EncodeFromCoversAt(row, y, e, i);
        var k :| 0 <= k < |rest| && rest[k].Covers(i);
        assert runs[k + 1] == rest[k];
      }
    }
  }

  /** No opaque pixel from column `x` on is left out of the runs. */
  lemma EncodeFromCovers(row: seq<Rgba>, y: nat, x: nat)
    requires x <= |row|
    ensures CoversOpaque(row, EncodeFrom(row, y, x), x)
  {
    forall i | x <= i < |row| && !IsTransparent(row[i])
      ensures exists k :: 0 <= k < |EncodeFrom(row, y, x)| && EncodeFrom(row, y, x)[k].Covers(i)
    {
      EncodeFromCoversAt(row, y, x, i);
    }
  }

  /** The runs of one whole row. */
  function EncodeRow(row: seq<Rgba>, y: nat): seq<Run> {
    EncodeFrom(row, y, 0)
  }

  /** The runs of a row, together with its alpha-0 pixels, partition it. */
  lemma EncodeRowPartition(row: seq<Rgba>, y: nat)
    ensures Partition(row, y, EncodeRow(row, y))
  {
    EncodeFromUniform(row, y, 0);
    EncodeFromMaximal(row, y, 0);
    EncodeFromOrdered(row, y, 0);
    EncodeFromCovers(row, y, 0);
  }

  /** The inner `while` of the scan: from column `x`, step over the pixels
      equal to `c`. */
  method ScanRun(row: seq<Rgba>, x: nat, c: Rgba) returns (e: nat)
    requires x <= |row|
    ensures e == RunEnd(row, x, c)
  {
    e := x;
    while e < |row| && row[e] == c
      invariant x <= e <= |row|
      invariant RunEnd(row, e, c) == RunEnd(row, x, c)
    {
      e := e + 1;
    }
  }

  /** The scan from an opaque pixel emits the run that starts there, then
      continues after it. */
  lemma EncodeFromOpaque(row: seq<Rgba>, y: nat, x: nat)
    requires x < |row| && !IsTransparent(row[x])
    ensures var e := RunEnd(row, x + 1, row[x]);
      EncodeFrom(row, y, x) == [Run(y, x, e - x, row[x])] + EncodeFrom(row, y, e)
  {
  }

  /** The scan of one row as `image_to_svg_vector` writes it: an outer `while` over the
      columns and an inner `while` that extends the current run. */
  method ScanRow(row: seq<Rgba>, y: nat) returns (runs: seq<Run>)
    ensures runs == EncodeRow(row, y)
  {
    runs := [];
    var x := 0;
    while x < |row|
      invariant x <= |row|
      invariant runs + EncodeFrom(row, y, x) == EncodeFrom(row, y, 0)
    {
      var p := row[x];
      if p.a == 0 {
        assert EncodeFrom(row, y, x) == EncodeFrom(row, y, x + 1);
        x := x + 1;
      } else {
        var e := ScanRun(row, x + 1, p);
        var r := Run(y, x, e - x, p);
        EncodeFromOpaque(row, y, x);
        assert (runs + [r]) + EncodeFrom(row, y, e) == runs + ([r] + EncodeFrom(row, y, e));
        runs := runs + [r];
        x := e;
      }
    }
  }

  /** The runs of rows `y`, `y + 1`, ... of `grid`, in row-major order. */
  function EncodeRows(grid: seq<seq<Rgba>>, y: nat): (runs: seq<Run>)
    requires y <= |grid|
    ensures forall k :: 0 <= k < |runs| ==> y <= runs[k].row < |grid|
    decreases |grid| - y
  {
    if y == |grid| then [] else EncodeRow(grid[y], y) + EncodeRows(grid, y + 1)
  }

  /** The runs of the whole grid, row 0 first. */
  function Encode(grid: seq<seq<Rgba>>): (runs: seq<Run>)
    ensures forall k :: 0 <= k < |runs| ==> runs[k].row < |grid|
  {
    EncodeRows(grid, 0)
  }

  /** The emitted runs are in row-major order: by row, and within a row by
      ascending, non-overlapping columns. */
  lemma {:induction false} EncodeRowsRowMajor(grid: seq<seq<Rgba>>, y: nat)
    requires y <= |grid|
    ensures forall j, k :: 0 <= j < k < |EncodeRows(grid, y)| ==>
      var rj, rk := EncodeRows(grid, y)[j], EncodeRows(grid, y)[k];
      rj.row < rk.row || (rj.row == rk.row && rj.End() <= rk.x)
    decreases |grid| - y
  {
    if y < |grid| {
      EncodeRowsRowMajor(grid, y + 1);
      EncodeFromOrdered(grid[y], y, 0);
      var head := EncodeRow(grid[y], y);
      var rest := EncodeRows(grid, y + 1);
      var all := EncodeRows(grid, y);
      assert all == head + rest;
      forall j, k | 0 <= j < k < |all|
        ensures all[j].row < all[k].row || (all[j].row == all[k].row && all[j].End() <= all[k].x)
      {
        if k < |head| {
          assert all[j] == head[j] && all[k] == head[k];
        } else if j < |head| {
          assert all[j] == head[j] && all[k] == rest[k - |head|];
        } else {
          assert all[j] == rest[j - |head|] && all[k] == rest[k - |head|];
        }
      }
    }
  }

  lemma EncodeRowMajor(grid: seq<seq<Rgba>>)
    ensures forall j, k :: 0 <= j < k < |Encode(grid)| ==>
      var rj, rk := Encode(grid)[j], Encode(grid)[k];
      rj.row < rk.row || (rj.row == rk.row && rj.End() <= rk.x)
  {
    EncodeRowsRowMajor(grid, 0);
  }

  /** The scan from column `x` yields no runs exactly when every pixel from
      `x` on is transparent. */
  lemma {:induction false} EncodeFromEmptyIff(row: seq<Rgba>, y: nat, x: nat)
    requires x <= |row|
    ensures EncodeFrom(row, y, x) == [] <==> forall i :: x <= i < |row| ==> IsTransparent(row[i])
    decreases |row| - x
  {
    if x < |row| && IsTransparent(row[x]) {
      EncodeFromEmptyIff(row, y, x + 1);
    }
  }

  /** A row yields no runs exactly when every pixel of it is transparent. */
  lemma RowEmptyIffTransparent(row: seq<Rgba>, y: nat)
    ensures EncodeRow(row, y) == [] <==> forall x :: 0 <= x < |row| ==> IsTransparent(row[x])
  {
    EncodeFromEmptyIff(row, y, 0);
  }

  /** The whole grid yields no runs exactly when every pixel is transparent. */
  lemma {:induction false} EncodeRowsEmptyIffTransparent(grid: seq<seq<Rgba>>, y: nat)
    requires y <= |grid|
    ensures EncodeRows(grid, y) == [] <==>
      forall j, x :: y <= j < |grid| && 0 <= x < |grid[j]| ==> IsTransparent(grid[j][x])
    decreases |grid| - y
  {
    if y < |grid| {
      EncodeRowsEmptyIffTransparent(grid, y + 1);
      RowEmptyIffTransparent(grid[y], y);
      assert EncodeRows(grid, y) == EncodeRow(grid[y], y) + EncodeRows(grid, y + 1);
    }
  }

  lemma EncodeEmptyIffTransparent(grid: seq<seq<Rgba>>)
    ensures Encode(grid) == [] <==>
      forall y, x :: 0 <= y < |grid| && 0 <= x < |grid[y]| ==> IsTransparent(grid[y][x])
  {
    EncodeRowsEmptyIffTransparent(grid, 0);
  }

  /** Every run of the grid is a legal, uniform run of the row it names. */
  lemma {:induction false} EncodeRowsUniform(grid: seq<seq<Rgba>>, y: nat)
    requires y <= |grid|
    ensures forall k :: 0 <= k < |EncodeRows(grid, y)| ==>
      var r := EncodeRows(grid, y)[k];
      r.row < |grid| && UniformRun(grid[r.row], r.row, r)
    decreases |grid| - y
  {
    if y < |grid| {
      EncodeRowsUniform(grid, y + 1);
      EncodeFromUniform(grid[y], y, 0);
      var head := EncodeRow(grid[y], y);
      var rest := EncodeRows(grid, y + 1);
      var all := EncodeRows(grid, y);
      assert all == head + rest;
      forall k | 0 <= k < |all|
        ensures all[k].row < |grid| && UniformRun(grid[all[k].row], all[k].row, all[k])
      {
        if k < |head| {
          assert all[k] == head[k];
        } else {
          assert all[k] == rest[k - |head|];
        }
      }
    }
  }

  /** The scan of the whole image: one row scan per row, top to bottom. */
  method ScanImage(img: Image) returns (runs: seq<Run>)
    requires img.Valid()
    ensures runs == Encode(img.pixels)
  {
    runs := [];
    var y := 0;
    while y < img.height
      invariant y <= img.height
      invariant runs + EncodeRows(img.pixels, y) == EncodeRows(img.pixels, 0)
    {
      var rowRuns := ScanRow(img.pixels[y], y);
      runs := runs + rowRuns;
      y := y + 1;
    }
  }
}
