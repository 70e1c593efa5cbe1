# Cross-stitch pattern creator: a verified model of its colour and grid core

The application edits cross-stitch patterns. A pattern is a grid of cells; each cell holds a
colour written `#RRGGBB`, or the empty string for "no stitch". The colours are DMC embroidery threads
from a fixed palette of fifty entries.

An image can be imported into a pattern:
1. it is drawn on an n x n canvas;
2. every pixel becomes the nearest palette colour;
3. a slider reduces the number of colours by keeping the most used ones and repainting every other
   cell with the nearest kept colour.

Besides import, the application lets the user:
- paint single cells with the selected swatch;
- resize or clear the grid;
- save the grid to a JSON file or the browser's storage, and load it back;
- view the pattern section by section, one inch of fabric (`fabricCount` cells) at a time, with the
  threads each section needs.

This project models that core in Dafny and proves what it promises. It has one module per concern:

| module | file | what it models |
|---|---|---|
| `Common` | `common.dfy` | option type, `Distinct`, `IndexOf`, flattening, lower-casing, small arithmetic facts |
| `Colors` | `colors.dfy` | `hexToRgb` with JavaScript `parseInt(h, 16)` and the 32-bit shifts; the colour distance; the first-nearest scan; `shadeColor`; `overlayShade` |
| `Palette` | `palette.dfy` | the `DMC_COLORS` table, its facts, the case-insensitive `find`, and `findClosestDmcColor` |
| `Usage` | `usage.dfy` | `getColorUsage`: a counts map together with the insertion order of its keys. For colour strings such as `#FFFFFF`, which are not array indices, this is the order `Object.entries` and `Object.keys` list them in |
| `Reduce` | `reduce.dfy` | `reduceColors`: the stable ranking by count, the kept colours, and the repaint |
| `Sampling` | `sampling.dfy` | the loop that turns an RGBA pixel buffer into a grid |
| `GridView` | `gridview.dfy` | `hexToDmc`, the cell-click update and the cell size of the grid component |
| `App` | `app.dfy` | the editor's state as a class: size, grid, selected colour and stored design, with its handlers |
| `Wizard` | `wizard.dfy` | the two-step import dialog as a class: step, size, grid, preview and slider |
| `DeepDive` | `deepdive.dfy` | the section tiling, the overlay loop, the sub-grid slicing and the per-section colour counts |
| `UsedColors` | `usedcolors.dfy` | the swatch list with DMC code labels |
| `NumberInput` | `numberinput.dfy` | the `format`/`parse` hooks of the number field |

The model takes each part of the program in its own form:
- Pure JavaScript expressions are Dafny functions.
- The loops that mutate a dictionary or a running minimum are methods with loop invariants, proved
  equal to a specification function. These loops are in `getColorUsage`, `findClosestDmcColor`, the
  inner remap of `reduceColors`, the pixel loops and the overlay loop.
- The React state of the editor and of the import dialog is a class whose methods update its fields.

The JavaScript semantics are modelled explicitly:
- **`parseInt`.** It skips JavaScript white space, reads one sign, drops a `0x` prefix and reads the
  longest run of hex digits; no digits gives NaN.
- **NaN.** NaN shifts to 0, so an unparsable colour is black.
- **`>>` and `&`.** These are floor division and a non-negative remainder.
- **Ranking.** `Array.prototype.sort` is stable, so the ranking orders by descending count and then
  by the order in which the colours first appear.
- **`Math.round`.** This is `floor(x + 0.5)`.
- **`slice`.** Both ends are clamped to the length.
- **`Math.ceil(a / b)`.** This is `(a + b - 1) / b`.

## Model

| member | source | states |
|---|---|---|
| Colors.ParseIntHex | src/utils.js:7 | `parseInt(h, 16)`: leading white space skipped, one optional sign, an optional `0x`/`0X` prefix, then the longest run of hex digits; no digits is NaN (`None`) |
| Colors.Channels | src/utils.js:8-12 | `(num >> 16) & 255`, `(num >> 8) & 255` and `num & 255`, each a byte, also for negative numbers |
| Colors.HexToRgb | src/utils.js:4-13 | the first `#` is dropped, a 3-character rest is doubled digit by digit, the result is parsed base 16 and split into three bytes; NaN gives black |
| Colors.HexDigitValue | src/utils.js:7 | a hex digit of either case has a value below 16 |
| Colors.TrimStartFacts | src/utils.js:7 | `parseInt` skips exactly the leading white space: what remains is a suffix that does not start with white space, and everything skipped was white space |
| Colors.HexPrefixFacts | src/utils.js:7 | the digit run `parseInt` reads is maximal: all of it is hex digits and no hex digit follows it |
| Colors.HexValue | src/utils.js:7 | n hex digits denote a value below 16^n |
| Colors.ParseIntHexDigits | src/utils.js:7 | `parseInt(s, 16)` of a non-empty string of hex digits is its base-16 value, never NaN |
| Colors.RemoveFirst | src/utils.js:5 | `replace('#', '')` leaves a string without `#` unchanged; in one with `#` it removes the first `#` and keeps everything before and after it in order |
| Colors.DoubleEach | src/utils.js:6 | the 3-digit expansion doubles the length and repeats each digit twice in place |
| Colors.HexValueSix | src/utils.js:7-12 | the value of six digits is the three pair values weighted by 65536, 256 and 1 |
| Colors.ChannelsOfBytes | src/utils.js:8-12 | the shifts and masks recover the three bytes of such a value |
| Colors.HexToRgbParsesDigits | src/utils.js:4-13 | for `#` and six hex digits, `hexToRgb` splits the parsed number into its channels |
| Colors.HexToRgbSixDigits | src/utils.js:4-13 | `#RRGGBB` becomes the three pair values; every channel is in 0..255 by its type, for every input |
| Colors.HexToRgbShortForm | src/utils.js:5-6 | `#RGB` gives the same triple as `#RRGGBB` with each digit doubled, for any three characters |
| Colors.HexDigitValueIgnoresCase | src/utils.js:7 | upper- and lower-case digits have the same value |
| Colors.HexToRgbIgnoresCase | src/utils.js:4-13 | two six-digit colours equal up to letter case give the same triple |
| Colors.SqDist | src/utils.js:16-22 | the squared distance is a natural number and is zero exactly when the two triples are equal |
| Colors.SqDistSymmetric | src/utils.js:16-22 | the distance is symmetric |
| Colors.NearestIndex | src/utils.js:65-77 | the chosen candidate is at minimal distance and every earlier candidate is strictly farther; this is the tie rule of the strict `<` scan started at infinity |
| Colors.NearestIndexStep | src/utils.js:71-74 | one more candidate replaces the choice exactly when it is strictly closer |
| Colors.ScanIsNearest | src/utils.js:68-75 | after i candidates the scan's best and minimum are the first nearest of those i and its distance |
| Colors.ScanDone | src/utils.js:66-75 | the finished scan settles on the first nearest candidate |
| Colors.Scan | src/utils.js:66-75 | the state (best index, running minimum) of a scan that starts at index 0 and infinity and replaces its best only on a strictly smaller distance; the best is 0 or an index already looked at |
| Colors.LowerHexDigit | src/utils.js:127 | the digit written for d < 16 is a lower-case hex digit worth d |
| Colors.PadStart2Byte | src/utils.js:127 | `v.toString(16).padStart(2, '0')` of a byte is its two lower-case digits |
| Colors.HexByte | src/utils.js:127 | a channel in 0..255 is written as its high and low digit |
| Colors.FormatRgb | src/utils.js:124-129 | three bytes format as `#` and six lower-case hex digits |
| Colors.FormatRgbDigits | src/utils.js:124-129 | the formatted text is `#` followed by the two digits of each channel, in order |
| Colors.FormatRgbRoundTrip | src/utils.js:124-129 | reading a formatted colour back with `hexToRgb` gives the colour |
| Colors.ShadeColor | src/utils.js:117-130 | for abs(percent) <= 1 the result is `#` and six lower-case hex digits |
| Colors.ShadeChannel | src/utils.js:121-123 | one channel of `shadeColor`: `Math.round((t - c) * p) + c` |
| Colors.JsRoundBetween | src/utils.js:121-123 | `Math.round` of a value between two integers lies between them |
| Colors.DarkenBetween | src/utils.js:121-123 | darkening towards 0 keeps a channel between 0 and its old value |
| Colors.LightenBetween | src/utils.js:121-123 | lightening towards 255 keeps a channel between its old value and 255 |
| Colors.ShadeChannelBetween | src/utils.js:119-123 | each channel lies between the input channel and the target (0 or 255) |
| Colors.ShadeRgb | src/utils.js:117-123 | a negative percent raises no channel and a non-negative one lowers none |
| Colors.ShadeColorChannels | src/utils.js:117-130 | reading the shaded colour back gives the shaded channels, so the text carries exactly those values |
| Colors.OverlayPercent | src/utils.js:135-137 | the shade is -0.4 or 0.4, and it darkens exactly when r*299 + g*587 + b*114 > 153000 |
| Colors.OverlayShade | src/utils.js:133-138 | the overlay colour is always `#` and six lower-case hex digits |
| Palette.DmcColors | src/ColorPalette.js:3-55 | the fifty entries of `DMC_COLORS`, each with its name, code and colour, in the table's order |
| Palette.PaletteSize | src/ColorPalette.js:3-55 | the palette has 50 entries, so `DMC_COLORS[0]` exists |
| Palette.EntryFacts | src/ColorPalette.js:4-53 | every colour is `#` and six upper-case hex digits and every code is non-empty |
| Palette.PaletteHexCanonical | src/ColorPalette.js:4-53 | every palette colour is upper-case `#RRGGBB` and a well-formed input of `hexToRgb` |
| Palette.CodesDistinct | src/ColorPalette.js:4-53 | no two entries share a code, which makes the codes valid React keys |
| Palette.HexesDistinct | src/ColorPalette.js:4-53 | no two entries have the same colour, even ignoring letter case |
| Palette.RgbsDistinct | src/ColorPalette.js:4-53 | no two entries have the same RGB triple |
| Palette.ClosestIndex | src/utils.js:65-77 | the entry chosen for a colour is a first nearest entry |
| Palette.ClosestDmc | src/utils.js:65-77 | the result is the colour, exactly as written, of an entry that no entry is strictly closer than and that no earlier entry ties |
| Palette.FindClosestDmcColor | src/utils.js:65-77 | the scan over the palette returns `ClosestDmc(rgb)` |
| Palette.ClosestOfPaletteColor | src/utils.js:65-77 | a palette colour is matched to itself |
| Palette.FindFrom | src/Grid.js:7 | the search finds the first entry from index i on whose colour equals the given one ignoring case, or reports that none does |
| Palette.FindEntry | src/Grid.js:7 | `DMC_COLORS.find(c => c.hex.toLowerCase() === hex.toLowerCase())`: the index of the first entry matching ignoring case, or none |
| Palette.FindEntryOfPaletteColor | src/Grid.js:7 | any spelling of entry k's colour finds entry k |
| Palette.FindEntryFound | src/Grid.js:7 | the search succeeds exactly when some entry matches ignoring case |
| Usage.Record | src/utils.js:29-30 | one cell of the `forEach`: an empty cell changes nothing, a known colour's count goes up by one, and a new colour is added with count 1 at the end of the key order |
| Usage.Tally | src/utils.js:26-33 | the table after visiting the cells one after the other from `{}` |
| Usage.ColorUsage | src/utils.js:25-34 | `getColorUsage(grid)`: the table of the grid's cells in row-major order |
| Usage.TallyIsUsage | src/utils.js:25-34 | counting cell by cell gives a table whose keys are the non-empty cells; each key counts its occurrences and is listed in order of first occurrence |
| Usage.RecordKeepsUsage | src/utils.js:29-30 | one more cell turns the table of a visit into the table of the longer visit |
| Usage.RecordKeepsOrder | src/utils.js:30 | adding a key at the end keeps the keys in order of first occurrence |
| Usage.UsageOfGrid | src/utils.js:25-34 | `getColorUsage(grid)` is the table of the grid's cells, visited row by row |
| Usage.GetColorUsage | src/utils.js:25-34 | the nested loops that update the counts build exactly that table |
| Usage.CellInCells | src/utils.js:27-28 | the two `forEach` calls visit every cell of the grid |
| Usage.CellsMember | src/utils.js:27-28 | the two `forEach` calls visit nothing but cells of the grid |
| Usage.UsageCountIsOccurrences | src/utils.js:29-30 | a colour's count is its number of cells, and the empty cell is counted 0 times |
| Usage.OrderDistinct | src/utils.js:30 | no colour is listed twice among the keys |
| Usage.DistinctColorCount | src/ImportWizard.js:100 | `Object.keys(getColorUsage(g)).length` is the number of distinct non-empty colours of g |
| Usage.CountsPositive | src/utils.js:29-30 | `""` is never a key and every count is at least 1 |
| Usage.TallyTotal | src/utils.js:27-32 | the counts of a visit add up to its number of non-empty cells |
| Usage.UsageTotal | src/utils.js:25-34 | the counts of a grid add up to its number of non-empty cells |
| Reduce.RankByCount | src/utils.js:40-41 | the keys in the order the stable sort by descending count leaves them, built by inserting each key after all the keys counted at least as often |
| Reduce.TopColors | src/utils.js:40-43 | `.slice(0, targetCount).map(([hex]) => hex)`: the first `targetCount` ranked colours, or all of them |
| Reduce.InsertPointFacts | src/utils.js:41 | a key is inserted after every colour counted at least as often and before the first counted less often |
| Reduce.RankByCountIsRanking | src/utils.js:40-41 | the stable sort is a permutation of the keys; a colour precedes another when counted more often, or as often and listed earlier |
| Reduce.RankingOfTable | src/utils.js:40-41 | the ranking lists each key once and nothing else |
| Reduce.TopOfTable | src/utils.js:40-43 | the kept colours are min(k, number of keys) distinct keys, and all keys when k is at least their number |
| Reduce.RankingOfUsage | src/utils.js:39-41 | the ranking of a grid lists each of its non-empty colours exactly once |
| Reduce.TopColorsFacts | src/utils.js:39-43 | the kept colours are the first min(k, colours) of the ranking, distinct, and all used in the grid |
| Reduce.TopColorsDominate | src/utils.js:39-43 | every kept colour is used more often than every dropped colour, or as often with its first cell earlier in row-major order |
| Reduce.Remap | src/utils.js:46-59 | the colour a cell gets: an empty or kept cell stays, any other takes the kept colour at the first nearest index of the kept colours' RGB values |
| Reduce.RemapCell | src/utils.js:46-59 | the cell callback computes `Remap`: empty and kept cells stay, and any other cell becomes the first nearest kept colour |
| Reduce.NearestKept | src/utils.js:50-58 | the `forEach` over the kept colours returns the first one at minimal distance |
| Reduce.ReduceColors | src/utils.js:37-62 | the result has the input's dimensions row by row; the input is a value and is never changed |
| Reduce.ReduceCell | src/utils.js:45-61 | cell by cell: empty stays empty, a kept colour stays, and any other colour becomes a kept colour at minimal distance with earlier-ranked colours winning ties |
| Reduce.ReduceColorsUsesKept | src/utils.js:39-61 | the result uses only kept colours, so at most k colours, none of them new, and no more than the input |
| Reduce.ReduceColorsIdentity | src/utils.js:37-62 | with `targetCount <= 0`, or at least as many kept colours as the grid has (including a grid with no colour), the grid is returned unchanged |
| Reduce.KeptIsAllColors | src/utils.js:40-43 | with k at least the number of colours every colour is kept |
| Reduce.ReduceColorsIdempotent | src/utils.js:37-62 | reducing twice by the same count is reducing once |
| Sampling.SampledGrid | src/App.js:53-62 | the n x n grid whose cell (y, x) is `findClosestDmcColor` of the red, green and blue bytes at `(y * n + x) * 4` |
| Sampling.IndexInBounds | src/App.js:57-58 | every index `(y * n + x) * 4 + 3` read for y, x < n lies in a buffer of 4 * n * n bytes |
| Sampling.SampledGridFacts | src/App.js:53-62 | the grid is n x n and each cell is the non-empty, upper-case colour of a first nearest palette entry to its pixel |
| Sampling.SampledGridIgnoresAlpha | src/App.js:57-58 | buffers that differ only in alpha bytes give the same grid |
| Sampling.PixelIgnoresAlpha | src/App.js:57-58 | a pixel's colour reads only its red, green and blue bytes |
| Sampling.BuildRow | src/App.js:55-61 | the inner loop builds row y of the sampled grid |
| Sampling.BuildGrid | src/App.js:53-62 | the nested loops build the sampled grid |
| App.EmptyGrid | src/App.js:8-10 | `emptyGrid(n)` is n rows of n cells, all empty |
| App.EmptyGridUnpainted | src/App.js:8-10 | an empty grid uses no colour, has no usage keys and holds only palette-or-empty cells |
| App.ClampSize | src/App.js:120 | the size is clamped into 2..40: unchanged inside, 2 below, 40 above |
| App.AcceptsImport | src/App.js:81 | `Array.isArray(loaded) && loaded.length > 0 && Array.isArray(loaded[0])` |
| App.JsonToGrid | src/App.js:80-83 | the grid an accepted document becomes has one row per element of the document |
| App.JsonRoundTrip | src/App.js:97-100 | an exported design, read back by the import, is the same grid |
| App.ExportAccepted | src/App.js:81 | an exported design passes the import check exactly when it has a row |
| App.Editor.constructor | src/App.js:24-26 | the editor starts with a 10 x 10 empty grid and black selected |
| App.Editor.SizeChange | src/App.js:119-123 | the size becomes the clamped value and the grid an empty grid of that size; nothing else changes |
| App.Editor.NewGrid | src/App.js:112-116 | after confirmation the grid is cleared to the current size; otherwise nothing changes |
| App.Editor.CropApply | src/App.js:52-66 | the grid becomes the sampled grid of the canvas buffer; size and selection stay |
| App.Editor.ImportFile | src/App.js:74-94 | an accepted document replaces the size with its row count and the grid with its rows; a missing file, a parse error or a rejected document leaves the state unchanged |
| App.Editor.LocalSave | src/App.js:126 | the stored design becomes the current grid; nothing else changes |
| App.Editor.LocalLoad | src/App.js:127-135 | a stored design replaces size and grid, even an empty one; with nothing stored the state stays |
| App.Editor.SelectSwatch | src/ColorPalette.js:63 | the selected colour becomes the swatch's palette colour, so a palette-only grid stays palette-only |
| App.Editor.CellClick | src/Grid.js:17-25 | the grid becomes the one-cell update with the selected colour and stays palette-only |
| GridView.HexToDmc | src/Grid.js:5-9 | `""` for an empty cell; otherwise `code (name)` of the first entry matching ignoring case, or `""` when none does |
| GridView.HexToDmcEmpty | src/Grid.js:6 | the empty cell has no label |
| GridView.HexToDmcOfPaletteColor | src/Grid.js:7-8 | any spelling of entry k's colour is labelled `code (name)` of entry k |
| GridView.EntryLabelNonEmpty | src/Grid.js:8 | no label is empty |
| GridView.HexToDmcFound | src/Grid.js:5-9 | a colour has a label exactly when it is non-empty and matches some entry ignoring case; otherwise the label is empty |
| GridView.HexToDmcFirstMatch | src/Grid.js:7-8 | the label is that of the first matching entry |
| GridView.PaintCell | src/Grid.js:18-24 | the updated grid has the same dimensions row by row |
| GridView.PaintCellEffect | src/Grid.js:17-25 | cell (y, x) becomes the selected colour and every other cell is unchanged |
| GridView.PaintOutside | src/Grid.js:19-23 | a click outside the grid leaves it unchanged |
| GridView.PaintCellIdempotent | src/Grid.js:17-25 | painting a cell its own colour changes nothing, and of two clicks on a cell only the last counts |
| GridView.PaintCellColors | src/Grid.js:17-25 | a click adds no colour besides the selected one |
| GridView.PaintKeepsPalette | src/Grid.js:17-25 | painting with a palette colour keeps every cell empty or a palette colour |
| GridView.CellSize | src/Grid.js:15 | the cell size is the floor of (maxGridPx - 4) / max(rows, cols); there is none when that maximum is 0 |
| GridView.CellSizeFits | src/Grid.js:35-36 | the box `cellSize * cols + 4` by `cellSize * rows + 4` fits in maxGridPx, and a larger cell size would not |
| GridView.Rows | src/Grid.js:12 | `grid.length` |
| GridView.Cols | src/Grid.js:13 | `grid[0]?.length || 0`: the first row's width, or 0 for an empty grid |
| GridView.GridCellSize | src/Grid.js:12-15 | for the grid drawn, there is no cell size exactly when the grid has no rows; otherwise the drawn box fits in maxGridPx and a larger cell size would not |
| DeepDive.CeilDiv | src/DeepDive.js:28-29 | `inchCols` and `inchRows` are the least r with r * fabricCount covering the cells |
| DeepDive.Span | src/DeepDive.js:40-41 | the extent of section k along an axis: `Math.min(fabricCount, total - k * fabricCount)` cells |
| DeepDive.SpanBounds | src/DeepDive.js:40-41 | each section is between 1 and `fabricCount` cells wide and high |
| DeepDive.SpansCoverAxis | src/DeepDive.js:38-41 | the section widths add up to `cols` and the heights to `rows` |
| DeepDive.CellInOneSection | src/DeepDive.js:38-41 | every cell lies in section `i / fabricCount` and in no other |
| DeepDive.OverlayAt | src/DeepDive.js:40-47 | the overlay pushed for section (y, x): left `x * inchPx`, top `y * inchPx`, width and height the section's extents times `cellSize` |
| DeepDive.OverlayRows | src/DeepDive.js:38-39 | there are `inchRows` rows of `inchCols` overlays |
| DeepDive.BuildOverlays | src/DeepDive.js:37-60 | the nested loops push the overlays of every section, row of sections after row |
| DeepDive.OverlayOfSection | src/DeepDive.js:42-47 | overlay `y * inchCols + x` belongs to section (y, x), so the keys `${y}-${x}` are distinct |
| DeepDive.OverlayInsideGrid | src/DeepDive.js:40-47 | every overlay lies inside the drawn cells |
| DeepDive.JsSlice | src/DeepDive.js:72-73 | `slice` has the length of the clamped range |
| DeepDive.JsSliceAt | src/DeepDive.js:72-73 | element i of `slice(a, b)` is element a + i |
| DeepDive.SubGrid | src/DeepDive.js:70-74 | `subGrid` of section (x, y): the rows from `y * fabricCount`, each cut to the cells from `x * fabricCount`, with JavaScript `slice` clamping |
| DeepDive.BlockShape | src/DeepDive.js:70-74 | the block cut from a rectangular grid has min(fc, rows - top) rows of min(fc, cols - left) cells |
| DeepDive.SubGridCells | src/DeepDive.js:70-74 | the sub-grid of section (x, y) has the section's extents, and its cell (i, j) is grid cell (y*fc + i, x*fc + j) |
| DeepDive.SectionsTileGrid | src/DeepDive.js:37-41 | together the sections hold each cell once, so they count every colour as often as the grid does |
| DeepDive.SectionUsageIsBlock | src/DeepDive.js:76 | a section's `getColorUsage` count of a colour counts only the cells of its block |
| DeepDive.SectionCounts | src/DeepDive.js:76 | there is one colour count for each of the `inchRows * inchCols` sections |
| DeepDive.SectionCountsOfEmpty | src/DeepDive.js:76 | no section counts the empty cell |
| DeepDive.SectionUsageAddsUp | src/DeepDive.js:76 | summed over all sections, the section counts of a colour are its count in the whole grid |
| DeepDive.PageGridFits | src/DeepDive.js:20-26 | for a non-empty grid, `gridWidth` and `gridHeight` are at most 500 |
| UsedColors.CodeOf | src/UsedColors.js:9-20 | `dmc ? dmc.code : ''` for `dmc` the first entry matching the colour ignoring case |
| UsedColors.Swatches | src/UsedColors.js:8-22 | one swatch per listed colour, in order, each with that colour and its own label; nothing else is read |
| UsedColors.CodeOfFirstMatch | src/UsedColors.js:9-20 | the label is the code of the first entry matching ignoring case |
| UsedColors.CodeOfEmpty | src/UsedColors.js:20 | the label is empty exactly when no entry matches |
| UsedColors.CodeOfPaletteColor | src/UsedColors.js:9-20 | any spelling of entry k's colour is labelled with k's code |
| UsedColors.CodeIdentifiesColor | src/UsedColors.js:20 | two colours with the same non-empty label are the same colour up to case |
| UsedColors.LabelAgreesWithTooltip | src/UsedColors.js:9-20 | a non-empty colour has a swatch label exactly when the editor's tooltip names an entry |
| UsedColors.KeysDistinct | src/UsedColors.js:11 | distinct colours give swatches with distinct keys |
| UsedColors.SwatchesOfSet | src/UsedColors.js:8-11 | a repeat-free listing of a set gives one swatch per member, with no key twice |
| UsedColors.SectionSwatches | src/DeepDive.js:125-128 | the section page shows one swatch per colour of the section, none for the empty cell, and no key twice |
| NumberInput.KeepNumeric | src/NumberInputRoot.js:16 | the filter never lengthens its input and keeps only `0-9 . + -` |
| NumberInput.Parse | src/NumberInputRoot.js:14-17 | `parse` is the identity without format options and keeps only `0-9 . + -` with them |
| NumberInput.Format | src/NumberInputRoot.js:5-12 | `format` is the identity without options; with options, null, undefined and `""` show `""` and any other value shows the formatter's text |
| NumberInput.KeepNumericAppend | src/NumberInputRoot.js:16 | the filter of a concatenation is the concatenation of the filters |
| NumberInput.KeepNumericChar | src/NumberInputRoot.js:16 | a single character is kept exactly when it is allowed; with the previous row this fixes the result as the allowed characters in order |
| NumberInput.KeepNumericCounts | src/NumberInputRoot.js:16 | each allowed character is kept as often as it occurs and every other character is gone |
| NumberInput.KeepNumericIdentity | src/NumberInputRoot.js:16 | the filter leaves a text unchanged exactly when it has only allowed characters |
| NumberInput.KeepNumericIdempotent | src/NumberInputRoot.js:16 | filtering twice is filtering once |
| Wizard.GenerateGrid | src/ImportWizard.js:84-94 | the loops build the size x size sampled grid of the canvas buffer |
| Wizard.CountColors | src/ImportWizard.js:100 | the count is the number of distinct non-empty colours |
| Wizard.ImportWizard.constructor | src/ImportWizard.js:17-30 | the dialog opens at step 1 with the given size, no grid or preview, and the slider at 1 of 1 |
| Wizard.ImportWizard.SelectSize | src/ImportWizard.js:179-187 | the size becomes 100, 200 or 300; nothing else changes |
| Wizard.ImportWizard.Next | src/ImportWizard.js:97-105 | step 2 follows; grid and preview are both the sampled grid; `maxColors` and `reduceTo` are its number of colours |
| Wizard.ImportWizard.Show | src/ImportWizard.js:99-104 | the state updates of Next keep the invariant that the preview is the grid reduced to `reduceTo` |
| Wizard.ImportWizard.Back | src/ImportWizard.js:107-109 | step 1 follows with grid, preview and slider untouched |
| Wizard.ImportWizard.ReduceChange | src/ImportWizard.js:111-115 | the preview is always the stored grid reduced to the last slider value, and it is the grid itself when the value is at least `maxColors` |
| Wizard.ImportWizard.Confirm | src/ImportWizard.js:117-119 | what is handed over is exactly the current preview |
| Wizard.PreviewFacts | src/ImportWizard.js:111-115 | a step-2 preview has the grid's shape and uses at most `reduceTo` colours, all of them from the grid |

## Left out

- `exportGridAsPng` (src/utils.js:80-114) and the PNG export button: they only draw on a canvas and call `toDataURL`, which is browser I/O.
- Canvas drawing and `getImageData`: the RGBA buffer of the n x n canvas is a parameter of the sampling loops, `Editor.CropApply` and `ImportWizard.Next`. ImageCropper.js, the crop pan, zoom and drag state of ImportWizard.js, and its scale slider are floating-point mouse handling.
- GridMagnifier.js, Header.js, Footer.js and Collapsible.js: display only. So are the JSX, styles and `showGrid`.
- DeepDive's hover, selection and focus state: the active section is a parameter (sx, sy) of `SubGrid`.
- `JSON.parse`, `JSON.stringify`, `localStorage`, `FileReader`, `saveAs`, `window.confirm` and `alert`: library and I/O calls. A parsed document is a parameter (`None` for a missing file or a parse error), the confirmation is a boolean, and the stored design is a field.
- `Intl.NumberFormat`: the formatter's text is the parameter `formatted` of `NumberInput.Format`, and the number field around the hooks is not modelled.
- `Math.sqrt` in `colorDist`: the model compares squared integer distances. The squares are at most 3 * 255^2, exact in doubles, and `sqrt` is monotone, so both strict comparisons pick the same winner.
- App.Editor.ImportFile: cells of an imported document that are not strings are modelled as empty cells, and rows that are not arrays as empty rows. The JavaScript state keeps such values as they are.
- App.Editor.SizeChange: takes an integer; `Number(e.target.value)` can also be NaN or a fraction, which the model does not represent.
- Wizard.ImportWizard.ReduceChange: requires step 2, because the slider exists only on that step. Any integer is allowed, although the slider gives 1 to `maxColors`.
- Wizard.ImportWizard.SelectSize: requires one of the three sizes the select offers.
- GridView.CellSize: `None` stands for JavaScript's division by zero, which gives Infinity or NaN. The editor's own `Math.floor(maxGridPx / size)` (src/App.js:32) is used only by the PNG export (src/App.js:104), which is left out.
- DeepDive: `fabricCount` is required to be a positive integer, so a fractional `fabricCount` in the `pattern` prop (src/DeepDive.js:19) is not represented. With 0 the JavaScript section counts are not finite.
- DeepDive.SectionsTileGrid and DeepDive.SectionUsageAddsUp: these require a rectangular grid. An imported ragged grid is not covered. The per-section tables `SectionCounts` are a derived view proving that the page's section usage adds up; the page computes one section at a time.
- Colors.HexToRgb: counts text in Dafny characters, not UTF-16 code units. It parses digits exactly, whereas `parseInt` rounds values of 14 or more hex digits to a double.
- Colors.ShadeColor: the percent is an exact real, whereas JavaScript multiplies doubles. For the ±0.4 that `overlayShade` passes, the products (t - c) * 0.4 are multiples of 0.4 and never near a half, so `Math.round` agrees. For general fractions rounding at exact halves is not modelled.
- Colors.OverlayPercent: the double quotient `brightness > 0.6` is taken as the exact integer test.
- Reduce.RemapCell: computes `hexToRgb` of all kept colours before its scan, while the JavaScript computes each inside the `forEach`. These are the same values in the same order.
- Usage.Tally and Usage.ColorUsage: every string is a plain key listed in insertion order. A JavaScript object differs for three kinds of cell text. Keys that look like array indices (`"1"`) are listed first, in ascending numeric order, so `reduceColors` can keep a different colour on a tie. A cell `"__proto__"` is never counted, because the assignment goes to the prototype setter. Inherited names such as `"constructor"` get a text, not a number, as their count. Such cells can only arrive through an imported file or local storage; sampled and painted cells always start with `#`.
- Common.ToLower and Common.SameIgnoringCase: only ASCII letters are lower-cased, whereas `toLowerCase` maps all of Unicode. This changes no lookup result. One side of every comparison is a palette colour, `#` and ASCII hex digits, and no other character lower-cases into `#`, `0-9` or `a-f`.
- The `usage`, `activeColor` and `onColorClick` props that DeepDive passes to UsedColors are unused by that component, so `Swatches` takes only the colour list.
