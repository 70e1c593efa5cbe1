/** The section view of src/DeepDive.js. The pattern is cut into square
    sections of `fabricCount` cells a side, one inch of fabric each; the
    last section of a row or column of sections may be narrower. The page
    puts one clickable overlay on each section and shows the chosen section
    cut out of the grid, with the colours it uses. */
module DeepDive {
  import opened Common
  import opened Usage
  import opened GridView

  /** `Math.ceil(a / b)` for whole numbers. */
  function CeilDiv(a: nat, b: nat): (r: nat)
    requires b > 0
    ensures r * b >= a && (r == 0 || (r - 1) * b < a)
  {
    (a + b - 1) / b
  }

  /** The extent in cells of section `k` along an axis of `total` cells:
      `Math.min(fabricCount, total - k * fabricCount)`. */
  function Span(total: nat, fc: nat, k: nat): int {
    Min(fc, total - k * fc)
  }

  /** Every section has between one and `fabricCount` cells along each axis. */
  lemma SpanBounds(total: nat, fc: nat, k: nat)
    requires fc > 0 && k < CeilDiv(total, fc)
    ensures 1 <= Span(total, fc, k) <= fc
  {
    var r := CeilDiv(total, fc);
    MulMonotone(fc, k, r - 1);
    assert k * fc <= (r - 1) * fc;
  }

  /** The extents of the first `m` sections, added up. */
  function SumSpans(total: nat, fc: nat, m: nat): int {
    if m == 0 then 0 else SumSpans(total, fc, m - 1) + Span(total, fc, m - 1)
  }

  /** Full sections add up to a multiple of the section width. */
  lemma {:induction false} SumSpansFull(total: nat, fc: nat, m: nat)
    requires fc > 0 && m * fc <= total
    ensures SumSpans(total, fc, m) == m * fc
  {
    if m > 0 {
      assert (m - 1) * fc == m * fc - fc;
      SumSpansFull(total, fc, m - 1);
    }
  }

  /** The sections along an axis cover exactly its cells. */
  lemma SpansCoverAxis(total: nat, fc: nat)
    requires fc > 0
    ensures SumSpans(total, fc, CeilDiv(total, fc)) == total
  {
    var r := CeilDiv(total, fc);
    if r > 0 {
      assert (r - 1) * fc == r * fc - fc;
      SumSpansFull(total, fc, r - 1);
    }
  }

  /** `i / fc` is the only `k` with `k * fc <= i < k * fc + fc`. */
  lemma DivUnique(i: nat, fc: nat, k: nat)
    requires fc > 0 && k * fc <= i < k * fc + fc
    ensures i / fc == k
  {
    var q := i / fc;
    if q < k {
      MulMonotone(fc, q + 1, k);
    } else if q > k {
      MulMonotone(fc, k + 1, q);
    }
  }

  /** Cell `i` of an axis lies in section `i / fc`. */
  lemma SectionOfCell(total: nat, fc: nat, i: nat)
    requires fc > 0 && i < total
    ensures var k := i / fc; k < CeilDiv(total, fc) && k * fc <= i < k * fc + Span(total, fc, k)
  {
    var k := i / fc;
    var r := CeilDiv(total, fc);
    assert k * fc <= i < k * fc + fc;
    if k >= r {
      MulMonotone(fc, r, k);
    }
  }

  /** A section that holds cell `i` is section `i / fc`. */
  lemma OnlySectionOfCell(total: nat, fc: nat, i: nat, k: nat)
    requires fc > 0 && k * fc <= i < k * fc + Span(total, fc, k)
    ensures k == i / fc
  {
    assert Span(total, fc, k) <= fc;
    DivUnique(i, fc, k);
  }

  /** Cell `i` of an axis lies in section `i / fc`, and in no other. */
  lemma CellInOneSection(total: nat, fc: nat, i: nat)
    requires fc > 0 && i < total
    ensures var k := i / fc; k < CeilDiv(total, fc) && k * fc <= i < k * fc + Span(total, fc, k)
    ensures forall k :: 0 <= k < CeilDiv(total, fc) && k * fc <= i < k * fc + Span(total, fc, k) ==> k == i / fc
  {
    SectionOfCell(total, fc, i);
    forall k | 0 <= k < CeilDiv(total, fc) && k * fc <= i < k * fc + Span(total, fc, k) ensures k == i / fc {
      OnlySectionOfCell(total, fc, i, k);
    }
  }

  /** One overlay box: its section, its position in pixels (`x * inchPx`,
      `y * inchPx`) and its size in pixels. */
  datatype Overlay = Overlay(x: nat, y: nat, left: int, top: int, w: int, h: int)

  /** The overlay pushed for section (y, x). */
  function OverlayAt(rows: nat, cols: nat, fc: nat, cellSize: int, y: nat, x: nat): Overlay {
    var inchPx := cellSize * fc;
    Overlay(x, y, x * inchPx, y * inchPx, cellSize * Span(cols, fc, x), cellSize * Span(rows, fc, y))
  }

  /** The overlays of the whole grid, one row of sections after another. */
  function OverlayRows(rows: nat, cols: nat, fc: nat, cellSize: int): (m: seq<seq<Overlay>>)
    requires fc > 0
    ensures |m| == CeilDiv(rows, fc) && forall y :: 0 <= y < |m| ==> |m[y]| == CeilDiv(cols, fc)
  {
    seq(CeilDiv(rows, fc), y requires 0 <= y < CeilDiv(rows, fc) =>
      seq(CeilDiv(cols, fc), x requires 0 <= x < CeilDiv(cols, fc) => OverlayAt(rows, cols, fc, cellSize, y, x)))
  }

  /** The nested loops that push one overlay per section. */
  method BuildOverlays(rows: nat, cols: nat, fc: nat, cellSize: int) returns (overlays: seq<Overlay>)
    requires fc > 0
    ensures overlays == Flatten(OverlayRows(rows, cols, fc, cellSize))
  {
    var inchRows := CeilDiv(rows, fc);
    var inchCols := CeilDiv(cols, fc);
    ghost var want := OverlayRows(rows, cols, fc, cellSize);
    overlays := [];
    var y := 0;
    while y < inchRows
      invariant 0 <= y <= inchRows
      invariant overlays == Flatten(want[..y])
    {
      var x := 0;
      assert Flatten(want[..y]) + want[y][..0] == Flatten(want[..y]);
      while x < inchCols
        invariant 0 <= x <= inchCols
        invariant overlays == Flatten(want[..y]) + want[y][..x]
      {
        var w := cellSize * Min(fc, cols - x * fc);
        var h := cellSize * Min(fc, rows - y * fc);
        var o := Overlay(x, y, x * (cellSize * fc), y * (cellSize * fc), w, h);
        assert o == want[y][x];
        TakeSnoc(want[y], x);
        overlays := overlays + [o];
        x := x + 1;
      }
      FlattenSnoc(want, y);
      TakeAll(want[y]);
      y := y + 1;
    }
    TakeAll(want);
  }

  /** Overlay `y * inchCols + x` belongs to section (y, x); so no two
      overlays share the React key `${y}-${x}`. */
  lemma OverlayOfSection(rows: nat, cols: nat, fc: nat, cellSize: int, y: nat, x: nat)
    requires fc > 0 && y < CeilDiv(rows, fc) && x < CeilDiv(cols, fc)
    ensures var ov := Flatten(OverlayRows(rows, cols, fc, cellSize));
      && |ov| == CeilDiv(rows, fc) * CeilDiv(cols, fc)
      && y * CeilDiv(cols, fc) + x < |ov|
      && ov[y * CeilDiv(cols, fc) + x] == OverlayAt(rows, cols, fc, cellSize, y, x)
  {
    FlattenIndex(OverlayRows(rows, cols, fc, cellSize), CeilDiv(cols, fc), y, x);
  }

  /** An overlay lies inside the drawn cells: its right edge is at most
      `cellSize * cols` and its bottom edge at most `cellSize * rows`. */
  lemma OverlayInsideGrid(rows: nat, cols: nat, fc: nat, cellSize: int, y: nat, x: nat)
    requires fc > 0 && cellSize >= 0 && y < CeilDiv(rows, fc) && x < CeilDiv(cols, fc)
    ensures var o := OverlayAt(rows, cols, fc, cellSize, y, x);
      o.left + o.w <= cellSize * cols && o.top + o.h <= cellSize * rows
  {
    EdgeInside(cols, fc, cellSize, x);
    EdgeInside(rows, fc, cellSize, y);
  }

  /** Along one axis: `k * (cellSize * fc) + cellSize * span <= cellSize * total`. */
  lemma EdgeInside(total: nat, fc: nat, cellSize: int, k: nat)
    requires fc > 0 && cellSize >= 0 && k < CeilDiv(total, fc)
    ensures k * (cellSize * fc) + cellSize * Span(total, fc, k) <= cellSize * total
  {
    var start := k * fc;
    var span := Span(total, fc, k);
    assert start + span <= total;
    ScaledEdge(cellSize, k, fc, span, total);
  }

  /** The arithmetic of `EdgeInside`: scaling by the cell size keeps the order. */
  lemma ScaledEdge(c: int, k: nat, fc: nat, span: int, total: nat)
    requires c >= 0 && k * fc + span <= total
    ensures k * (c * fc) + c * span <= c * total
  {
    assert k * (c * fc) == c * (k * fc);
    assert c * (k * fc + span) == c * (k * fc) + c * span;
    MulMonotone(c, k * fc + span, total);
  }

  /** `s.slice(a, b)` for non-negative `a` and `b`: both ends are cut to the
      length, and an empty range gives the empty sequence. */
  function JsSlice<T>(s: seq<T>, a: nat, b: nat): (r: seq<T>)
    ensures |r| == Max(0, Min(b, |s|) - Min(a, |s|))
  {
    var lo := Min(a, |s|);
    var hi := Min(b, |s|);
    if lo < hi then s[lo..hi] else []
  }

  /** The slice holds the elements from `a` on, in order. */
  lemma JsSliceAt<T>(s: seq<T>, a: nat, b: nat, i: nat)
    requires i < |JsSlice(s, a, b)|
    ensures JsSlice(s, a, b)[i] == s[a + i]
  {
  }

  /** The rows `top .. top + fc - 1` (as far as they exist). */
  function RowsFrom(g: Grid, fc: nat, top: nat): Grid {
    JsSlice(g, top, top + fc)
  }

  /** Every row cut to the columns `left .. left + fc - 1`. */
  function ColumnsFrom(g: Grid, fc: nat, left: nat): (r: Grid)
    ensures |r| == |g|
  {
    seq(|g|, i requires 0 <= i < |g| => JsSlice(g[i], left, left + fc))
  }

  /** `subGrid` of the active section (sx, sy): rows from `sy * fc`, then
      in each of them the cells from `sx * fc`. */
  function SubGrid(g: Grid, fc: nat, sx: nat, sy: nat): Grid {
    ColumnsFrom(RowsFrom(g, fc, sy * fc), fc, sx * fc)
  }

  /** All rows have `cols` cells. */
  predicate Rectangular(g: Grid, cols: nat) {
    forall i :: 0 <= i < |g| ==> |g[i]| == cols
  }

  /** The block from row `top` and column `left` holds the cells from
      (top, left) on, in order. */
  lemma BlockCell(g: Grid, fc: nat, top: nat, left: nat, i: nat, j: nat)
    requires i < |ColumnsFrom(RowsFrom(g, fc, top), fc, left)|
    requires j < |ColumnsFrom(RowsFrom(g, fc, top), fc, left)[i]|
    ensures top + i < |g| && left + j < |g[top + i]|
    ensures ColumnsFrom(RowsFrom(g, fc, top), fc, left)[i][j] == g[top + i][left + j]
  {
    JsSliceAt(g, top, top + fc, i);
    JsSliceAt(g[top + i], left, left + fc, j);
  }

  /** The block of a rectangular grid is `min(fc, |g| - top)` rows of
      `min(fc, cols - left)` cells. */
  lemma BlockShape(g: Grid, cols: nat, fc: nat, top: nat, left: nat)
    requires Rectangular(g, cols) && top < |g| && left < cols
    ensures var x := ColumnsFrom(RowsFrom(g, fc, top), fc, left);
      && |x| == Min(fc, |g| - top)
      && forall i :: 0 <= i < |x| ==> |x[i]| == Min(fc, cols - left)
  {
    var x := ColumnsFrom(RowsFrom(g, fc, top), fc, left);
    forall i | 0 <= i < |x| ensures |x[i]| == Min(fc, cols - left) {
      JsSliceAt(g, top, top + fc, i);
    }
  }

  /** The section cut out of a rectangular grid has the section's extents,
      and its cell (i, j) is cell (sy * fc + i, sx * fc + j) of the grid. */
  lemma SubGridCells(g: Grid, cols: nat, fc: nat, sx: nat, sy: nat)
    requires Rectangular(g, cols) && fc > 0
    requires sy < CeilDiv(|g|, fc) && sx < CeilDiv(cols, fc)
    ensures var sub := SubGrid(g, fc, sx, sy);
      && |sub| == Span(|g|, fc, sy)
      && (forall i :: 0 <= i < |sub| ==> |sub[i]| == Span(cols, fc, sx))
      && (forall i, j :: 0 <= i < |sub| && 0 <= j < |sub[i]| ==> sub[i][j] == g[sy * fc + i][sx * fc + j])
  {
    var top := sy * fc;
    var left := sx * fc;
    StepFacts(|g|, fc, sy);
    StepFacts(cols, fc, sx);
    BlockShape(g, cols, fc, top, left);
    var sub := SubGrid(g, fc, sx, sy);
    forall i, j | 0 <= i < |sub| && 0 <= j < |sub[i]| ensures sub[i][j] == g[top + i][left + j] {
      BlockCell(g, fc, top, left, i, j);
    }
  }

  /*  The tiling proof walks the sections by their first row and first
      column, `0, fc, 2 * fc, ...`, which keeps the arithmetic linear, and
      counts the cells of one colour `c` by index on the way. The lemmas
      after the walk tie these counts to the cut-out sections and their
      `getColorUsage` tables. */

  /** The number of cells of colour `c` among `row[lo..hi]`. */
  function CountIn(row: seq<string>, lo: nat, hi: nat, c: string): nat
    requires lo <= hi <= |row|
    decreases hi - lo
  {
    if lo == hi then 0 else CountIn(row, lo, hi - 1, c) + (if row[hi - 1] == c then 1 else 0)
  }

  /** Counting up to `hi` is counting up to `mid`, then from `mid`. */
  lemma {:induction false} CountInSplit(row: seq<string>, lo: nat, mid: nat, hi: nat, c: string)
    requires lo <= mid <= hi <= |row|
    ensures CountIn(row, lo, hi, c) == CountIn(row, lo, mid, c) + CountIn(row, mid, hi, c)
    decreases hi - mid
  {
    if mid < hi {
      CountInSplit(row, lo, mid, hi - 1, c);
    }
  }

  /** `CountIn` is the multiplicity of `c` in the slice. */
  lemma {:induction false} CountInIsOcc(row: seq<string>, lo: nat, hi: nat, c: string)
    requires lo <= hi <= |row|
    ensures CountIn(row, lo, hi, c) == multiset(row[lo..hi])[c]
    decreases hi - lo
  {
    if lo < hi {
      CountInIsOcc(row, lo, hi - 1, c);
      assert row[lo..hi] == row[lo..hi - 1] + [row[hi - 1]];
    }
  }

  /** The cells of colour `c` in a whole row. */
  function RowOcc(row: seq<string>, c: string): nat {
    CountIn(row, 0, |row|, c)
  }

  /** The cells of colour `c` in the part of `row` a section starting at
      column `left` covers: `row.slice(left, left + fc)`. */
  function Piece(row: seq<string>, left: nat, fc: nat, c: string): nat {
    CountIn(row, Min(left, |row|), Min(left + fc, |row|), c)
  }

  /** `Piece` counts the cells of the slice. */
  lemma PieceIsSlice(row: seq<string>, left: nat, fc: nat, c: string)
    ensures Piece(row, left, fc, c) == RowOcc(JsSlice(row, left, left + fc), c)
  {
    var x := JsSlice(row, left, left + fc);
    CountInIsOcc(row, Min(left, |row|), Min(left + fc, |row|), c);
    CountInIsOcc(x, 0, |x|, c);
    assert x[0..|x|] == x;
    if Min(left, |row|) >= Min(left + fc, |row|) {
      assert x == [];
    }
  }

  /** The cells of colour `c` in the `n` rows of `g` from row `top`. */
  function RangeOcc(g: Grid, top: nat, n: nat, c: string): nat
    requires top + n <= |g|
  {
    if n == 0 then 0 else RangeOcc(g, top, n - 1, c) + RowOcc(g[top + n - 1], c)
  }

  /** Counting `m + k` rows is counting the first `m`, then the next `k`. */
  lemma {:induction false} RangeOccSplit(g: Grid, top: nat, m: nat, k: nat, c: string)
    requires top + m + k <= |g|
    ensures RangeOcc(g, top, m + k, c) == RangeOcc(g, top, m, c) + RangeOcc(g, top + m, k, c)
    decreases k
  {
    if k > 0 {
      RangeOccSplit(g, top, m, k - 1, c);
    }
  }

  /** The first `n` rows hold the cells `Cells` lists for them. */
  lemma {:induction false} RangeOccIsCells(g: Grid, n: nat, c: string)
    requires n <= |g|
    ensures RangeOcc(g, 0, n, c) == multiset(Cells(g[..n]))[c]
  {
    if n > 0 {
      RangeOccIsCells(g, n - 1, c);
      assert g[..n][..n - 1] == g[..n - 1];
      CountInIsOcc(g[n - 1], 0, |g[n - 1]|, c);
      assert g[n - 1][0..|g[n - 1]|] == g[n - 1];
    }
  }

  /** The cells of colour `c` in the columns `left .. left + fc - 1` of the
      `n` rows from row `top`. */
  function BlockOcc(g: Grid, top: nat, n: nat, fc: nat, left: nat, c: string): nat
    requires top + n <= |g|
  {
    if n == 0 then 0 else BlockOcc(g, top, n - 1, fc, left, c) + Piece(g[top + n - 1], left, fc, c)
  }

  /** `BlockOcc` counts the rows of the block that `RowsFrom` and
      `ColumnsFrom` cut out. */
  lemma BlockOccIsBlock(g: Grid, fc: nat, top: nat, left: nat, n: nat, c: string)
    requires top + n <= |g| && n <= fc
    ensures var x := ColumnsFrom(RowsFrom(g, fc, top), fc, left);
      n <= |x| && BlockOcc(g, top, n, fc, left, c) == RangeOcc(x, 0, n, c)
  {
    var x := ColumnsFrom(RowsFrom(g, fc, top), fc, left);
    BlockHeight(g, fc, top, left);
    forall k | 0 <= k < n ensures RowOcc(x[k], c) == Piece(g[top + k], left, fc, c) {
      BlockRowOcc(g, fc, top, left, k, c);
    }
    RowsAgree(g, top, n, fc, left, c, x);
  }

  /** Rows that count alike row by row count alike together. */
  lemma {:induction false} RowsAgree(g: Grid, top: nat, n: nat, fc: nat, left: nat, c: string, x: Grid)
    requires top + n <= |g| && n <= |x|
    requires forall k :: 0 <= k < n ==> RowOcc(x[k], c) == Piece(g[top + k], left, fc, c)
    ensures BlockOcc(g, top, n, fc, left, c) == RangeOcc(x, 0, n, c)
  {
    if n > 0 {
      RowsAgree(g, top, n - 1, fc, left, c, x);
    }
  }

  /** Row `k` of the block counts as the piece of grid row `top + k`. */
  lemma BlockRowOcc(g: Grid, fc: nat, top: nat, left: nat, k: nat, c: string)
    requires top + k < |g| && k < fc
    ensures var x := ColumnsFrom(RowsFrom(g, fc, top), fc, left);
      k < |x| && RowOcc(x[k], c) == Piece(g[top + k], left, fc, c)
  {
    JsSliceAt(g, top, top + fc, k);
    PieceIsSlice(g[top + k], left, fc, c);
  }

  /** The cells of colour `c` in the section whose first row is `top`
      and whose first column is `left`. */
  lemma BlockOccIsCells(g: Grid, fc: nat, top: nat, left: nat, c: string)
    requires top <= |g|
    ensures BlockOcc(g, top, Min(fc, |g| - top), fc, left, c) == multiset(Cells(ColumnsFrom(RowsFrom(g, fc, top), fc, left)))[c]
  {
    var x := ColumnsFrom(RowsFrom(g, fc, top), fc, left);
    var n := Min(fc, |g| - top);
    BlockHeight(g, fc, top, left);
    BlockOccIsBlock(g, fc, top, left, n, c);
    RangeOccIsCells(x, n, c);
    assert x[..n] == x;
  }

  /** A section has the rows from `top` on, at most `fc` of them. */
  lemma BlockHeight(g: Grid, fc: nat, top: nat, left: nat)
    requires top <= |g|
    ensures |ColumnsFrom(RowsFrom(g, fc, top), fc, left)| == Min(fc, |g| - top)
  {
    assert |RowsFrom(g, fc, top)| == Min(top + fc, |g|) - top;
  }

  /** The cells of colour `c` in the pieces of `row` starting at `left`,
      `left + fc`, ... */
  function RowPieces(row: seq<string>, fc: nat, left: nat, c: string): nat
    requires fc > 0
    decreases |row| - left
  {
    if left >= |row| then 0 else Piece(row, left, fc, c) + RowPieces(row, fc, left + fc, c)
  }

  /** The pieces of a row from `left` on hold its cells from `left` on. */
  lemma {:induction false} RowPiecesSuffix(row: seq<string>, fc: nat, left: nat, c: string)
    requires fc > 0 && left <= |row|
    ensures RowPieces(row, fc, left, c) == CountIn(row, left, |row|, c)
    decreases |row| - left
  {
    if left < |row| {
      var e := Min(left + fc, |row|);
      RowPiecesSuffix(row, fc, e, c);
      assert RowPieces(row, fc, left + fc, c) == RowPieces(row, fc, e, c);
      CountInSplit(row, left, e, |row|, c);
    }
  }

  /** The cells of colour `c` in the blocks of the `n` rows from `top`
      whose first column is `left`, `left + fc`, ... below `cols`. */
  function BandPieces(g: Grid, top: nat, n: nat, cols: nat, fc: nat, left: nat, c: string): nat
    requires fc > 0 && top + n <= |g|
    decreases cols - left
  {
    if left >= cols then 0 else BlockOcc(g, top, n, fc, left, c) + BandPieces(g, top, n, cols, fc, left + fc, c)
  }

  /** The last row of a band adds its pieces to every block. */
  lemma {:induction false} BandPiecesSnoc(g: Grid, top: nat, n: nat, cols: nat, fc: nat, left: nat, c: string)
    requires fc > 0 && 0 < n && top + n <= |g| && |g[top + n - 1]| == cols
    ensures BandPieces(g, top, n, cols, fc, left, c) == BandPieces(g, top, n - 1, cols, fc, left, c) + RowPieces(g[top + n - 1], fc, left, c)
    decreases cols - left
  {
    if left < cols {
      BandPiecesSnoc(g, top, n, cols, fc, left + fc, c);
    }
  }

  /** A band of no rows has no cells in any block. */
  lemma {:induction false} BandPiecesOfNone(g: Grid, top: nat, cols: nat, fc: nat, left: nat, c: string)
    requires fc > 0 && top <= |g|
    ensures BandPieces(g, top, 0, cols, fc, left, c) == 0
    decreases cols - left
  {
    if left < cols {
      BandPiecesOfNone(g, top, cols, fc, left + fc, c);
    }
  }

  /** The blocks of a band of a rectangular grid hold all its cells. */
  lemma {:induction false} BandPiecesAll(g: Grid, top: nat, n: nat, cols: nat, fc: nat, c: string)
    requires Rectangular(g, cols) && fc > 0 && top + n <= |g|
    ensures BandPieces(g, top, n, cols, fc, 0, c) == RangeOcc(g, top, n, c)
  {
    if n > 0 {
      BandPiecesAll(g, top, n - 1, cols, fc, c);
      BandPiecesSnoc(g, top, n, cols, fc, 0, c);
      RowPiecesSuffix(g[top + n - 1], fc, 0, c);
    } else {
      BandPiecesOfNone(g, top, cols, fc, 0, c);
    }
  }

  /** The cells of colour `c` in all sections whose first row is `top`,
      `top + fc`, ... */
  function GridPieces(g: Grid, cols: nat, fc: nat, top: nat, c: string): nat
    requires fc > 0
    decreases |g| - top
  {
    if top >= |g| then 0 else BandPieces(g, top, Min(fc, |g| - top), cols, fc, 0, c) + GridPieces(g, cols, fc, top + fc, c)
  }

  /** The sections from row `top` on hold the cells of those rows. */
  lemma {:induction false} GridPiecesSuffix(g: Grid, cols: nat, fc: nat, top: nat, c: string)
    requires Rectangular(g, cols) && fc > 0 && top <= |g|
    ensures GridPieces(g, cols, fc, top, c) == RangeOcc(g, top, |g| - top, c)
    decreases |g| - top
  {
    if top < |g| {
      var n := Min(fc, |g| - top);
      GridPiecesSuffix(g, cols, fc, top + n, c);
      assert GridPieces(g, cols, fc, top + fc, c) == GridPieces(g, cols, fc, top + n, c);
      BandPiecesAll(g, top, n, cols, fc, c);
      RangeOccSplit(g, top, n, |g| - top - n, c);
    }
  }

  /** The sections tile the grid: together they hold each of its cells
      once, so every colour occurs in them as often as in the grid. */
  lemma SectionsTileGrid(g: Grid, cols: nat, fc: nat, c: string)
    requires Rectangular(g, cols) && fc > 0
    ensures GridPieces(g, cols, fc, 0, c) == multiset(Cells(g))[c]
  {
    GridPiecesSuffix(g, cols, fc, 0, c);
    RangeOccIsCells(g, |g|, c);
    assert g[..|g|] == g;
  }

  /** The walk by first column and first row visits the sections by index. */
  lemma StepFacts(total: nat, fc: nat, k: nat)
    requires fc > 0
    ensures k < CeilDiv(total, fc) <==> k * fc < total
    ensures (k + 1) * fc == k * fc + fc
  {
    var r := CeilDiv(total, fc);
    if k < r {
      MulMonotone(fc, k, r - 1);
    } else {
      MulMonotone(fc, r, k);
    }
  }

  /** The colour count `getColorUsage` gives for one section is the count
      of its block. */
  lemma SectionUsageIsBlock(g: Grid, fc: nat, sx: nat, sy: nat, top: nat, left: nat, c: string)
    requires c != "" && top == sy * fc && left == sx * fc && top <= |g|
    ensures UsageCount(ColorUsage(SubGrid(g, fc, sx, sy)), c) == BlockOcc(g, top, Min(fc, |g| - top), fc, left, c)
  {
    BlockOccIsCells(g, fc, top, left, c);
    UsageCountIsOccurrences(ColumnsFrom(RowsFrom(g, fc, top), fc, left), c);
  }

  /** `getColorUsage(subGrid)[c]` for every section (sx, sy) the page can
      select: `inchRows` rows of `inchCols` counts. */
  function SectionCounts(g: Grid, cols: nat, fc: nat, c: string): (m: seq<seq<nat>>)
    requires fc > 0
    ensures |m| == CeilDiv(|g|, fc)
    ensures forall sy :: 0 <= sy < |m| ==> |m[sy]| == CeilDiv(cols, fc)
  {
    seq(CeilDiv(|g|, fc), sy requires 0 <= sy =>
      seq(CeilDiv(cols, fc), sx requires 0 <= sx => UsageCount(ColorUsage(SubGrid(g, fc, sx, sy)), c)))
  }

  /** `s[k] + s[k + 1] + ...`. */
  function SumFrom(s: seq<nat>, k: nat): nat
    decreases |s| - k
  {
    if k >= |s| then 0 else s[k] + SumFrom(s, k + 1)
  }

  /** The sums of the rows of `m` from row `k` on, added up. */
  function SumRowsFrom(m: seq<seq<nat>>, k: nat): nat
    decreases |m| - k
  {
    if k >= |m| then 0 else SumFrom(m[k], 0) + SumRowsFrom(m, k + 1)
  }

  /** Entry `sx` of `row` is the count of the block of columns from
      `sx * fc` in the band of rows from `top`. */
  ghost predicate BlockRow(row: seq<nat>, g: Grid, fc: nat, top: nat, c: string)
    requires top <= |g|
  {
    forall sx :: 0 <= sx < |row| ==> row[sx] == BlockOcc(g, top, Min(fc, |g| - top), fc, sx * fc, c)
  }

  /** A row of section counts that are block counts adds up to the
      pieces of its band. */
  lemma {:induction false} RowSumIsPieces(row: seq<nat>, g: Grid, cols: nat, fc: nat, top: nat, k: nat, c: string)
    requires fc > 0 && top < |g| && |row| == CeilDiv(cols, fc) && k <= |row|
    requires BlockRow(row, g, fc, top, c)
    ensures SumFrom(row, k) == BandPieces(g, top, Min(fc, |g| - top), cols, fc, k * fc, c)
    decreases |row| - k
  {
    StepFacts(cols, fc, k);
    if k < |row| {
      RowSumIsPieces(row, g, cols, fc, top, k + 1, c);
    }
  }

  /** A table of section counts that are block counts adds up to the
      pieces of the grid. */
  lemma {:induction false} TableSumIsPieces(m: seq<seq<nat>>, g: Grid, cols: nat, fc: nat, k: nat, c: string)
    requires fc > 0 && |m| == CeilDiv(|g|, fc) && k <= |m|
    requires forall sy :: 0 <= sy < |m| ==> |m[sy]| == CeilDiv(cols, fc)
    requires forall sy :: 0 <= sy < |m| && sy * fc < |g| ==> BlockRow(m[sy], g, fc, sy * fc, c)
    ensures SumRowsFrom(m, k) == GridPieces(g, cols, fc, k * fc, c)
    decreases |m| - k
  {
    StepFacts(|g|, fc, k);
    if k < |m| {
      TableSumIsPieces(m, g, cols, fc, k + 1, c);
      RowSumIsPieces(m[k], g, cols, fc, k * fc, 0, c);
    }
  }

  /** A table of zeros adds up to zero. */
  lemma {:induction false} ZeroTable(m: seq<seq<nat>>, k: nat)
    requires forall sy, sx :: 0 <= sy < |m| && 0 <= sx < |m[sy]| ==> m[sy][sx] == 0
    ensures SumRowsFrom(m, k) == 0
    decreases |m| - k
  {
    if k < |m| {
      ZeroTable(m, k + 1);
      ZeroRow(m[k], 0);
    }
  }

  lemma {:induction false} ZeroRow(s: seq<nat>, k: nat)
    requires forall i :: 0 <= i < |s| ==> s[i] == 0
    ensures SumFrom(s, k) == 0
    decreases |s| - k
  {
    if k < |s| {
      ZeroRow(s, k + 1);
    }
  }

  /** Entry (sy, sx) of the table is the count of its block. */
  lemma SectionCountIsBlock(g: Grid, cols: nat, fc: nat, c: string, sy: nat, sx: nat)
    requires fc > 0 && c != "" && sy < CeilDiv(|g|, fc) && sx < CeilDiv(cols, fc) && sy * fc < |g|
    ensures SectionCounts(g, cols, fc, c)[sy][sx] == BlockOcc(g, sy * fc, Min(fc, |g| - sy * fc), fc, sx * fc, c)
  {
    SectionUsageIsBlock(g, fc, sx, sy, sy * fc, sx * fc, c);
  }

  /** Every row of the table lists the counts of the blocks of its band. */
  lemma SectionCountsAreBlocks(g: Grid, cols: nat, fc: nat, c: string)
    requires fc > 0 && c != ""
    ensures var m := SectionCounts(g, cols, fc, c);
      forall sy :: 0 <= sy < |m| && sy * fc < |g| ==> BlockRow(m[sy], g, fc, sy * fc, c)
  {
    var m := SectionCounts(g, cols, fc, c);
    forall sy | 0 <= sy < |m| && sy * fc < |g| ensures BlockRow(m[sy], g, fc, sy * fc, c) {
      forall sx | 0 <= sx < |m[sy]|
        ensures m[sy][sx] == BlockOcc(g, sy * fc, Min(fc, |g| - sy * fc), fc, sx * fc, c)
      {
        SectionCountIsBlock(g, cols, fc, c, sy, sx);
      }
    }
  }

  /** The empty cell is counted in no section. */
  lemma SectionCountsOfEmpty(g: Grid, cols: nat, fc: nat)
    requires fc > 0
    ensures var m := SectionCounts(g, cols, fc, "");
      forall sy, sx :: 0 <= sy < |m| && 0 <= sx < |m[sy]| ==> m[sy][sx] == 0
  {
    var m := SectionCounts(g, cols, fc, "");
    forall sy, sx | 0 <= sy < |m| && 0 <= sx < |m[sy]| ensures m[sy][sx] == 0 {
      UsageCountIsOccurrences(SubGrid(g, fc, sx, sy), "");
    }
  }

  /** Summed over all `inchRows * inchCols` sections, the per-section colour
      counts give the colour counts of the whole grid. */
  lemma SectionUsageAddsUp(g: Grid, cols: nat, fc: nat, c: string)
    requires Rectangular(g, cols) && fc > 0
    ensures SumRowsFrom(SectionCounts(g, cols, fc, c), 0) == UsageCount(ColorUsage(g), c)
  {
    var m := SectionCounts(g, cols, fc, c);
    UsageCountIsOccurrences(g, c);
    if c == "" {
      SectionCountsOfEmpty(g, cols, fc);
      ZeroTable(m, 0);
    } else {
      SectionCountsAreBlocks(g, cols, fc, c);
      TableSumIsPieces(m, g, cols, fc, 0, c);
      SectionsTileGrid(g, cols, fc, c);
    }
  }

  /** The page's grid box, `cellSize * cols + 4` by `cellSize * rows + 4`
      with `cellSize` computed for 500 pixels, is at most 500 pixels wide
      and high. */
  lemma PageGridFits(rows: nat, cols: nat)
    requires Max(rows, cols) > 0
    ensures var cs := CellSize(500, rows, cols).value;
      cs * cols + 4 <= 500 && cs * rows + 4 <= 500
  {
    CellSizeFits(500, rows, cols);
  }
}
