/** The pattern editor of src/Grid.js: the tooltip lookup `hexToDmc`, the
    functional one-cell update of `handleCellClick`, and the cell size that
    fits the grid into a square of `maxGridPx` pixels. */
module GridView {
  import opened Common
  import opened Palette
  import opened Usage

  /** The tooltip text of a palette entry: `code (name)`. */
  function EntryLabel(i: nat): string
    requires i < |DmcColors|
  {
    DmcColors[i].code + " (" + DmcColors[i].name + ")"
  }

  /** `hexToDmc`: "" for an empty cell, else the label of the first entry
      whose colour equals `hex` ignoring case, or "" when there is none. */
  function HexToDmc(hex: string): string {
    if hex == "" then ""
    else match FindEntry(hex)
      case None => ""
      case Some(i) => EntryLabel(i)
  }

  /** An empty cell has no tooltip label. */
  lemma HexToDmcEmpty()
    ensures HexToDmc("") == ""
  {
  }

  /** Any spelling of the colour of entry `k` names entry `k`. */
  lemma HexToDmcOfPaletteColor(hex: string, k: int)
    requires 0 <= k < |DmcColors| && SameIgnoringCase(hex, DmcColors[k].hex)
    ensures HexToDmc(hex) == EntryLabel(k)
  {
    FindEntryOfPaletteColor(hex, k);
    PaletteHexCanonical(k);
    assert |ToLower(hex)| == |ToLower(DmcColors[k].hex)|;
  }

  /** No label is empty. */
  lemma EntryLabelNonEmpty(i: nat)
    requires i < |DmcColors|
    ensures EntryLabel(i) != ""
  {
    var c := DmcColors[i];
    assert |c.code + " (" + c.name + ")"| >= 2;
  }

  /** A colour gets a label exactly when it is not "" and matches some
      entry ignoring case; otherwise the tooltip falls back to the cell's
      coordinates. */
  lemma HexToDmcFound(hex: string)
    ensures HexToDmc(hex) != "" <==>
      hex != "" && exists k :: 0 <= k < |DmcColors| && SameIgnoringCase(DmcColors[k].hex, hex)
  {
    FindEntryFound(hex);
    var r := FindEntry(hex);
    if r.Some? {
      EntryLabelNonEmpty(r.value);
    }
  }

  /** The label is that of the first matching entry. */
  lemma HexToDmcFirstMatch(hex: string, k: int)
    requires hex != "" && 0 <= k < |DmcColors| && SameIgnoringCase(DmcColors[k].hex, hex)
    requires forall j :: 0 <= j < k ==> !SameIgnoringCase(DmcColors[j].hex, hex)
    ensures HexToDmc(hex) == EntryLabel(k)
  {
    var r := FindEntry(hex);
    assert r.Some?;
    assert r.value <= k;
    assert r.value >= k;
  }

  /** The number of rows and the width of the first row, as
      `grid.length` and `grid[0]?.length || 0`. */
  function Rows(g: Grid): nat { |g| }

  function Cols(g: Grid): nat {
    if |g| > 0 then |g[0]| else 0
  }

  /** The whole grid after clicking cell (y, x) with `selected`: row `y`
      gets the new cell, every other row is kept; an index outside the
      grid matches no row or column. */
  function PaintCell(g: Grid, y: int, x: int, selected: string): (r: Grid)
    ensures |r| == |g| && forall i :: 0 <= i < |g| ==> |r[i]| == |g[i]|
  {
    seq(|g|, i requires 0 <= i < |g| =>
      if i == y then seq(|g[i]|, j requires 0 <= j < |g[i]| => if j == x then selected else g[i][j])
      else g[i])
  }

  /** The clicked cell takes the selected colour and no other cell changes. */
  lemma PaintCellEffect(g: Grid, y: int, x: int, selected: string)
    ensures var r := PaintCell(g, y, x, selected);
      forall i, j :: 0 <= i < |g| && 0 <= j < |g[i]| ==>
        r[i][j] == (if i == y && j == x then selected else g[i][j])
  {
  }

  /** A click outside the grid leaves it as it was. */
  lemma PaintOutside(g: Grid, y: int, x: int, selected: string)
    requires !(0 <= y < |g| && 0 <= x < |g[y]|)
    ensures PaintCell(g, y, x, selected) == g
  {
    var r := PaintCell(g, y, x, selected);
    forall i | 0 <= i < |g| ensures r[i] == g[i] {
      if i == y {
        assert r[i] == g[i];
      }
    }
  }

  /** Painting a cell with the colour it already has changes nothing, and
      only the last of two clicks on the same cell counts. */
  lemma PaintCellIdempotent(g: Grid, y: int, x: int, a: string, b: string)
    requires 0 <= y < |g| && 0 <= x < |g[y]|
    ensures PaintCell(g, y, x, g[y][x]) == g
    ensures PaintCell(PaintCell(g, y, x, a), y, x, b) == PaintCell(g, y, x, b)
  {
    var r := PaintCell(g, y, x, g[y][x]);
    assert r[y] == g[y];
    assert forall i | 0 <= i < |g| :: r[i] == g[i];
    var s := PaintCell(PaintCell(g, y, x, a), y, x, b);
    var t := PaintCell(g, y, x, b);
    assert s[y] == t[y];
    assert forall i | 0 <= i < |g| :: s[i] == t[i];
  }

  /** After a click the grid uses no colour besides the old ones and the
      selected one. */
  lemma PaintCellColors(g: Grid, y: int, x: int, selected: string)
    ensures UsedColorSet(PaintCell(g, y, x, selected)) <= UsedColorSet(g) + {selected}
  {
    var r := PaintCell(g, y, x, selected);
    PaintCellEffect(g, y, x, selected);
    forall c | c in UsedColorSet(r) ensures c in UsedColorSet(g) + {selected} {
      CellsMember(r, c);
      var i, j :| 0 <= i < |r| && 0 <= j < |r[i]| && r[i][j] == c;
      if !(i == y && j == x) {
        CellInCells(g, i, j);
      }
    }
  }

  /** Every cell is "" or, exactly as written, the colour of a palette entry. */
  ghost predicate PaletteCells(g: Grid) {
    forall i, j :: 0 <= i < |g| && 0 <= j < |g[i]| ==> g[i][j] == "" || IsPaletteHex(g[i][j])
  }

  /** Clicking with a swatch colour keeps a grid of palette colours. */
  lemma PaintKeepsPalette(g: Grid, y: int, x: int, selected: string)
    requires PaletteCells(g) && IsPaletteHex(selected)
    ensures PaletteCells(PaintCell(g, y, x, selected))
  {
    PaintCellEffect(g, y, x, selected);
  }

  /** `Math.floor((maxGridPx - BORDER) / Math.max(rows, cols))` with
      `BORDER = 4`; `None` where JavaScript divides by zero (an empty
      grid or one whose first row is empty and has no rows). */
  function CellSize(maxGridPx: int, rows: nat, cols: nat): (r: Option<int>)
    ensures r.None? <==> Max(rows, cols) == 0
    ensures r.Some? ==> r.value * Max(rows, cols) <= maxGridPx - 4 < (r.value + 1) * Max(rows, cols)
  {
    var m := Max(rows, cols);
    if m == 0 then None else Some((maxGridPx - 4) / m)
  }

  /** With room for the border, the box `cellSize * cols + 4` by
      `cellSize * rows + 4` fits into `maxGridPx`, and the cell size is
      the largest that does. */
  lemma CellSizeFits(maxGridPx: int, rows: nat, cols: nat)
    requires maxGridPx >= 4 && Max(rows, cols) > 0
    ensures var cs := CellSize(maxGridPx, rows, cols).value;
      && cs >= 0
      && cs * cols + 4 <= maxGridPx && cs * rows + 4 <= maxGridPx
      && (cs + 1) * Max(rows, cols) + 4 > maxGridPx
  {
    var m := Max(rows, cols);
    var cs := CellSize(maxGridPx, rows, cols).value;
    PositiveFactor(cs + 1, m);
    MulMonotone(cs, cols, m);
    MulMonotone(cs, rows, m);
  }

  /** For the grid the component draws: there is no cell size exactly
      when the grid is empty, and otherwise the drawn box fits into
      `maxGridPx` with the largest cell size that does. */
  lemma GridCellSize(maxGridPx: int, g: Grid)
    ensures CellSize(maxGridPx, Rows(g), Cols(g)).None? <==> g == []
    ensures g != [] && maxGridPx >= 4 ==>
      var cs := CellSize(maxGridPx, Rows(g), Cols(g)).value;
      && cs >= 0
      && cs * Cols(g) + 4 <= maxGridPx && cs * Rows(g) + 4 <= maxGridPx
      && (cs + 1) * Max(Rows(g), Cols(g)) + 4 > maxGridPx
  {
    if g != [] && maxGridPx >= 4 {
      CellSizeFits(maxGridPx, Rows(g), Cols(g));
    }
  }
}
