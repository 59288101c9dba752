/** Drawing the emitted runs back onto a canvas, the way an SVG viewer paints
    `<rect x y width height="1">` elements in document order. Together with the
    scan this gives the converter's round trip. */
module Raster {
  import opened Pixels
  import opened Runs

  /** Paints run `r` onto one canvas row; columns outside the row are
      clipped. */
  function PaintRow(canvas: seq<Rgba>, r: Run): seq<Rgba> {
    seq(|canvas|, i requires 0 <= i < |canvas| => if r.Covers(i) then r.color else canvas[i])
  }

  /** Paints `runs` onto one canvas row, first run first. */
  function PaintRuns(canvas: seq<Rgba>, runs: seq<Run>): seq<Rgba>
    decreases |runs|
  {
    if runs == [] then canvas else PaintRuns(PaintRow(canvas, runs[0]), runs[1..])
  }

  /** Paints run `r` onto row `r.row` of a canvas; a run below the last row
      is clipped. */
  function Paint(canvas: seq<seq<Rgba>>, r: Run): seq<seq<Rgba>> {
    if r.row < |canvas| then canvas[r.row := PaintRow(canvas[r.row], r)] else canvas
  }

  /** Paints `runs` onto a canvas, first run first. */
  function PaintAll(canvas: seq<seq<Rgba>>, runs: seq<Run>): seq<seq<Rgba>>
    decreases |runs|
  {
    if runs == [] then canvas else PaintAll(Paint(canvas, runs[0]), runs[1..])
  }

  /** Painting the runs scanned from column `x` onto a row that already shows
      the image left of `x` and nothing from `x` on completes the row. */
  lemma {:induction false} RowRoundTripFrom(row: seq<Rgba>, y: nat, x: nat, canvas: seq<Rgba>)
    requires x <= |row| == |canvas|
    requires forall i :: 0 <= i < x ==> canvas[i] == Normalize(row[i])
    requires forall i :: x <= i < |row| ==> canvas[i] == Transparent
    ensures PaintRuns(canvas, EncodeFrom(row, y, x)) == NormalizeRow(row)
    decreases |row| - x
  {
    if x == |row| {
      assert canvas == NormalizeRow(row);
    } else if IsTransparent(row[x]) {
      RowRoundTripFrom(row, y, x + 1, canvas);
    } else {
      var e := RunEnd(row, x + 1, row[x]);
      var r := Run(y, x, e - x, row[x]);
      var rest := EncodeFrom(row, y, e);
      assert ([r] + rest)[1..] == rest;
      RowRoundTripFrom(row, y, e, PaintRow(canvas, r));
    }
  }

  /** Round trip of one row: painting its runs onto a transparent row gives
      back the row, except that transparent pixels lose their colour. */
  lemma RowRoundTrip(row: seq<Rgba>, y: nat)
    ensures PaintRuns(BlankRow(|row|), EncodeRow(row, y)) == NormalizeRow(row)
  {
    RowRoundTripFrom(row, y, 0, BlankRow(|row|));
  }

  /** Painting `a` then `b` is painting `a + b`. */
  lemma {:induction false} PaintAllAppend(canvas: seq<seq<Rgba>>, a: seq<Run>, b: seq<Run>)
    ensures PaintAll(canvas, a + b) == PaintAll(PaintAll(canvas, a), b)
    decreases |a|
  {
    if a != [] {
      assert (a + b)[1..] == a[1..] + b;
      PaintAllAppend(Paint(canvas, a[0]), a[1..], b);
    } else {
      assert a + b == b;
    }
  }

  /** Runs that all lie on row `y` change that row only. */
  lemma {:induction false} PaintAllOneRow(canvas: seq<seq<Rgba>>, y: nat, runs: seq<Run>)
    requires y < |canvas|
    requires forall k :: 0 <= k < |runs| ==> runs[k].row == y
    ensures PaintAll(canvas, runs) == canvas[y := PaintRuns(canvas[y], runs)]
    decreases |runs|
  {
    if runs == [] {
      assert canvas[y := canvas[y]] == canvas;
    } else {
      var c := Paint(canvas, runs[0]);
      PaintAllOneRow(c, y, runs[1..]);
      assert c[y := PaintRuns(c[y], runs[1..])] == canvas[y := PaintRuns(canvas[y], runs)];
    }
  }

  lemma {:induction false} GridRoundTripFrom(grid: seq<seq<Rgba>>, y: nat, canvas: seq<seq<Rgba>>)
    requires y <= |grid| == |canvas|
    requires forall j :: 0 <= j < y ==> canvas[j] == NormalizeRow(grid[j])
    requires forall j :: y <= j < |grid| ==> canvas[j] == BlankRow(|grid[j]|)
    ensures PaintAll(canvas, EncodeRows(grid, y)) == NormalizeGrid(grid)
    decreases |grid| - y
  {
    if y == |grid| {
      assert canvas == NormalizeGrid(grid);
    } else {
      var head := EncodeRow(grid[y], y);
      var rest := EncodeRows(grid, y + 1);
      PaintAllAppend(canvas, head, rest);
      PaintAllOneRow(canvas, y, head);
      RowRoundTrip(grid[y], y);
      GridRoundTripFrom(grid, y + 1, canvas[y := NormalizeRow(grid[y])]);
    }
  }

  /** Round trip of the converter: painting every emitted run onto an
      all-transparent canvas of the image's size reproduces the image, with
      every fully transparent pixel read as `Transparent`. */
  lemma RoundTrip(img: Image)
    requires img.Valid()
    ensures PaintAll(Blank(img.width, img.height), Encode(img.pixels)) == NormalizeGrid(img.pixels)
  {
    GridRoundTripFrom(img.pixels, 0, Blank(img.width, img.height));
  }

  /** The reproduction is exact precisely when every fully transparent pixel
      of the image is `Transparent`: colour channels under alpha 0 are not
      carried by any rectangle. */
  lemma ExactRoundTripIff(img: Image)
    requires img.Valid()
    ensures PaintAll(Blank(img.width, img.height), Encode(img.pixels)) == img.pixels <==>
      forall y, x :: 0 <= y < img.height && 0 <= x < img.width && IsTransparent(img.pixels[y][x]) ==>
        img.pixels[y][x] == Transparent
  {
    RoundTrip(img);
    var g := img.pixels;
    if forall y, x :: 0 <= y < img.height && 0 <= x < img.width && IsTransparent(g[y][x]) ==> g[y][x] == Transparent {
      forall y | 0 <= y < |g| ensures NormalizeGrid(g)[y] == g[y] {
        assert NormalizeRow(g[y]) == g[y];
      }
      assert NormalizeGrid(g) == g;
    }
    if NormalizeGrid(g) == g {
      forall y, x | 0 <= y < img.height && 0 <= x < img.width && IsTransparent(g[y][x])
        ensures g[y][x] == Transparent
      {
        assert NormalizeGrid(g)[y][x] == Normalize(g[y][x]);
      }
    }
  }
}
