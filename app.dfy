/** The editor state of src/App.js: the grid size, the grid, the selected
    swatch colour and the design kept in the browser's local storage, with
    the handlers that replace them. */
module App {
  import opened Common
  import opened Colors
  import opened Palette
  import opened Usage
  import opened Sampling
  import opened GridView

  /** `emptyGrid(n)`: n rows of n empty cells. */
  function EmptyGrid(n: nat): (g: Grid)
    ensures |g| == n && forall i :: 0 <= i < n ==> |g[i]| == n
    ensures forall i, j :: 0 <= i < n && 0 <= j < n ==> g[i][j] == ""
  {
    seq(n, i requires 0 <= i < n => seq(n, j requires 0 <= j < n => ""))
  }

  /** An empty grid counts no colour and holds only palette cells. */
  lemma EmptyGridUnpainted(n: nat)
    ensures UsedColorSet(EmptyGrid(n)) == {}
    ensures ColorUsage(EmptyGrid(n)).order == []
    ensures PaletteCells(EmptyGrid(n))
  {
    var g := EmptyGrid(n);
    forall c | c in Cells(g) ensures c == "" {
      CellsMember(g, c);
    }
    assert DistinctColorCount(g) == |ColorUsage(g).order| == 0;
  }

  /** `Math.max(2, Math.min(40, v))`: the grid sizes the editor allows. */
  function ClampSize(v: int): (r: nat)
    ensures 2 <= r <= 40
    ensures 2 <= v <= 40 ==> r == v
    ensures v < 2 ==> r == 2
    ensures v > 40 ==> r == 40
  {
    Max(2, Min(40, v))
  }

  /** The shapes of a parsed JSON document the import check looks at:
      arrays, strings, and every other value. */
  datatype Json = JArray(items: seq<Json>) | JString(s: string) | JOther

  /** `Array.isArray(loaded) && loaded.length > 0 && Array.isArray(loaded[0])`. */
  predicate AcceptsImport(j: Json) {
    j.JArray? && |j.items| > 0 && j.items[0].JArray?
  }

  /** The cells of an imported row: strings are kept, anything else reads as
      an empty cell, and a row that is not an array has no cells. */
  function RowOf(j: Json): seq<string> {
    if j.JArray? then
      seq(|j.items|, k requires 0 <= k < |j.items| => if j.items[k].JString? then j.items[k].s else "")
    else []
  }

  function JsonToGrid(j: Json): (g: Grid)
    requires j.JArray?
    ensures |g| == |j.items|
  {
    seq(|j.items|, i requires 0 <= i < |j.items| => RowOf(j.items[i]))
  }

  /** `JSON.stringify(grid)` as a document: an array of arrays of strings. */
  function GridToJson(g: Grid): (j: Json)
    ensures j.JArray? && |j.items| == |g|
  {
    JArray(seq(|g|, i requires 0 <= i < |g| =>
      JArray(seq(|g[i]|, k requires 0 <= k < |g[i]| => JString(g[i][k])))))
  }

  /** An exported design reads back as the same grid. */
  lemma JsonRoundTrip(g: Grid)
    ensures JsonToGrid(GridToJson(g)) == g
  {
    var r := JsonToGrid(GridToJson(g));
    forall i | 0 <= i < |g| ensures r[i] == g[i] {
      assert |r[i]| == |g[i]|;
    }
  }

  /** An exported design passes the import check exactly when it has a row. */
  lemma ExportAccepted(g: Grid)
    ensures AcceptsImport(GridToJson(g)) <==> |g| > 0
  {
  }

  class Editor {
    var size: nat
    var grid: Grid
    var selectedColor: string
    /** The `cross_stitch` entry of local storage, if any. */
    var saved: Option<Grid>

    /** `size` always counts the rows of `grid`. */
    ghost predicate Valid()
      reads this
    {
      |grid| == size
    }

    /** The grid holds only palette colours and empty cells, and the
        selected colour is a swatch. */
    ghost predicate PaletteOnly()
      reads this
    {
      PaletteCells(grid) && IsPaletteHex(selectedColor)
    }

    /** The initial state: a 10 x 10 empty grid with black selected; local
        storage is whatever an earlier session left there. */
    constructor(stored: Option<Grid>)
      ensures Valid() && PaletteOnly()
      ensures size == 10 && grid == EmptyGrid(10) && selectedColor == "#000000" && saved == stored
    {
      size := 10;
      grid := EmptyGrid(10);
      selectedColor := "#000000";
      saved := stored;
      EmptyGridUnpainted(10);
      assert DmcColors[2].hex == "#000000";
    }

    /** `handleSizeChange` for a numeric input value: clamp and start afresh. */
    method SizeChange(v: int)
      requires Valid()
      modifies this
      ensures Valid()
      ensures size == ClampSize(v) && grid == EmptyGrid(size)
      ensures selectedColor == old(selectedColor) && saved == old(saved)
      ensures old(PaletteOnly()) ==> PaletteOnly()
    {
      size := ClampSize(v);
      grid := EmptyGrid(size);
      EmptyGridUnpainted(size);
    }

    /** `handleNewGrid`: after the user confirms, clear to the current size. */
    method NewGrid(confirmed: bool)
      requires Valid()
      modifies this
      ensures Valid()
      ensures grid == (if confirmed then EmptyGrid(old(size)) else old(grid))
      ensures size == old(size) && selectedColor == old(selectedColor) && saved == old(saved)
      ensures old(PaletteOnly()) ==> PaletteOnly()
    {
      if confirmed {
        grid := EmptyGrid(size);
        EmptyGridUnpainted(size);
      }
    }

    /** `handleCropApply`: the cropped image, drawn on a size x size canvas,
        becomes the grid of its nearest palette colours. */
    method CropApply(data: seq<Byte>)
      requires Valid() && IsBuffer(data, size)
      modifies this
      ensures Valid()
      ensures size == old(size) && grid == SampledGrid(data, size)
      ensures selectedColor == old(selectedColor) && saved == old(saved)
      ensures old(PaletteOnly()) ==> PaletteOnly()
    {
      grid := BuildGrid(data, size);
      SampledGridFacts(data, size);
    }

    /** `handleFile` once the file is read: `None` when there is no file or
        `JSON.parse` throws; an accepted document replaces size and grid,
        anything else leaves the state alone. */
    method ImportFile(parsed: Option<Json>)
      requires Valid()
      modifies this
      ensures Valid()
      ensures parsed.Some? && AcceptsImport(parsed.value) ==>
        size == |parsed.value.items| && grid == JsonToGrid(parsed.value)
      ensures !(parsed.Some? && AcceptsImport(parsed.value)) ==> size == old(size) && grid == old(grid)
      ensures selectedColor == old(selectedColor) && saved == old(saved)
    {
      if parsed.Some? && AcceptsImport(parsed.value) {
        size := |parsed.value.items|;
        grid := JsonToGrid(parsed.value);
      }
    }

    /** `handleLocalSave`. */
    method LocalSave()
      modifies this
      ensures saved == Some(grid)
      ensures size == old(size) && grid == old(grid) && selectedColor == old(selectedColor)
    {
      saved := Some(grid);
    }

    /** `handleLocalLoad`: a stored design replaces size and grid (an empty
        array is truthy too); with nothing stored the state stays. */
    method LocalLoad()
      requires Valid()
      modifies this
      ensures Valid()
      ensures old(saved).Some? ==> size == |old(saved).value| && grid == old(saved).value
      ensures old(saved).None? ==> size == old(size) && grid == old(grid)
      ensures selectedColor == old(selectedColor) && saved == old(saved)
    {
      if saved.Some? {
        size := |saved.value|;
        grid := saved.value;
      }
    }

    /** A click on swatch `i` of the palette. */
    method SelectSwatch(i: nat)
      requires i < |DmcColors|
      modifies this
      ensures selectedColor == DmcColors[i].hex
      ensures size == old(size) && grid == old(grid) && saved == old(saved)
      ensures old(PaletteCells(grid)) ==> PaletteOnly()
    {
      selectedColor := DmcColors[i].hex;
    }

    /** `handleCellClick(y, x)` of the grid component. */
    method CellClick(y: int, x: int)
      requires Valid()
      modifies this
      ensures Valid()
      ensures grid == PaintCell(old(grid), y, x, selectedColor)
      ensures size == old(size) && selectedColor == old(selectedColor) && saved == old(saved)
      ensures old(PaletteOnly()) ==> PaletteOnly()
    {
      if PaletteCells(grid) && IsPaletteHex(selectedColor) {
        PaintKeepsPalette(grid, y, x, selectedColor);
      }
      grid := PaintCell(grid, y, x, selectedColor);
    }
  }
}
