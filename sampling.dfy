/** The loop that turns the RGBA pixels of an n x n canvas into a pattern:
    `handleCropApply` in src/App.js and `generateGrid` in src/ImportWizard.js
    run it on the buffer `getImageData` returns. Each cell is the palette
    colour nearest to its pixel; the alpha byte is never read. */
module Sampling {
  import opened Common
  import opened Colors
  import opened Palette
  import opened Usage

  /** An n x n RGBA buffer: four bytes per pixel, row by row. */
  predicate IsBuffer(data: seq<Byte>, n: nat) {
    |data| == 4 * n * n
  }

  /** Every index the loop reads, `(y * n + x) * 4 + 2`, lies in the buffer. */
  lemma IndexInBounds(n: nat, y: nat, x: nat)
    requires y < n && x < n
    ensures (y * n + x) * 4 + 3 < 4 * n * n
  {
    assert y * n <= (n - 1) * n;
    assert y * n + x <= n * n - 1;
  }

  /** The colour of pixel (y, x): the red, green and blue bytes at `(y * n + x) * 4`. */
  function PixelRgb(data: seq<Byte>, n: nat, y: nat, x: nat): Rgb
    requires IsBuffer(data, n) && y < n && x < n
  {
    IndexInBounds(n, y, x);
    var idx := (y * n + x) * 4;
    Rgb(data[idx], data[idx + 1], data[idx + 2])
  }

  /** The grid the loop builds. */
  function SampledGrid(data: seq<Byte>, n: nat): Grid
    requires IsBuffer(data, n)
  {
    seq(n, y requires 0 <= y < n => SampledRow(data, n, y))
  }
  /** Row `y` of the grid. */
  function SampledRow(data: seq<Byte>, n: nat, y: nat): seq<string>
    requires IsBuffer(data, n) && y < n
  {
    seq(n, x requires 0 <= x < n => ClosestDmc(PixelRgb(data, n, y, x)))
  }

  /** The sampled grid is n x n, and each cell is the colour of the first
      palette entry nearest to its pixel, so never empty. */
  lemma SampledGridFacts(data: seq<Byte>, n: nat)
    requires IsBuffer(data, n)
    ensures var g := SampledGrid(data, n);
      && |g| == n
      && (forall y :: 0 <= y < n ==> |g[y]| == n)
      && (forall y, x :: 0 <= y < n && 0 <= x < n ==>
            && g[y][x] != "" && IsPaletteHex(g[y][x]) && IsCanonicalHex(g[y][x])
            && exists i :: IsFirstNearest(PixelRgb(data, n, y, x), PaletteRgbs(), i) && g[y][x] == DmcColors[i].hex)
  {
  }

  /** Two buffers that differ only in alpha bytes give the same grid. */
  lemma SampledGridIgnoresAlpha(d1: seq<Byte>, d2: seq<Byte>, n: nat)
    requires IsBuffer(d1, n) && IsBuffer(d2, n)
    requires forall i :: 0 <= i < |d1| && i % 4 != 3 ==> d1[i] == d2[i]
    ensures SampledGrid(d1, n) == SampledGrid(d2, n)
  {
    forall y | 0 <= y < n ensures SampledRow(d1, n, y) == SampledRow(d2, n, y) {
      forall x | 0 <= x < n ensures PixelRgb(d1, n, y, x) == PixelRgb(d2, n, y, x) {
        PixelIgnoresAlpha(d1, d2, n, y, x);
      }
    }
    assert forall y | 0 <= y < n :: SampledGrid(d1, n)[y] == SampledGrid(d2, n)[y];
  }

  /** The colour of a pixel does not read its alpha byte. */
  lemma PixelIgnoresAlpha(d1: seq<Byte>, d2: seq<Byte>, n: nat, y: nat, x: nat)
    requires IsBuffer(d1, n) && IsBuffer(d2, n) && y < n && x < n
    requires forall i :: 0 <= i < |d1| && i % 4 != 3 ==> d1[i] == d2[i]
    ensures PixelRgb(d1, n, y, x) == PixelRgb(d2, n, y, x)
  {
    IndexInBounds(n, y, x);
    var idx := (y * n + x) * 4;
    assert idx % 4 == 0 && (idx + 1) % 4 == 1 && (idx + 2) % 4 == 2;
  }

  /** One pass of the inner loop: row `y`, pixel by pixel. */
  method BuildRow(data: seq<Byte>, n: nat, y: nat) returns (row: seq<string>)
    requires IsBuffer(data, n) && y < n
    ensures row == SampledRow(data, n, y)
  {
    row := [];
    var x := 0;
    while x < n
      invariant 0 <= x <= n && |row| == x
      invariant row == SampledRow(data, n, y)[..x]
    {
      var hex := FindClosestDmcColor(PixelRgb(data, n, y, x));
      ghost var want := SampledRow(data, n, y);
      assert hex == want[x];
      TakeSnoc(want, x);
      row := row + [hex];
      x := x + 1;
    }
    TakeAll(SampledRow(data, n, y));
  }

  /** The nested `for` loops that push one row of `findClosestDmcColor`
      results after the other. */
  method BuildGrid(data: seq<Byte>, n: nat) returns (g: Grid)
    requires IsBuffer(data, n)
    ensures g == SampledGrid(data, n)
  {
    g := [];
    var y := 0;
    while y < n
      invariant 0 <= y <= n
      invariant g == SampledGrid(data, n)[..y]
    {
      var row := BuildRow(data, n, y);
      ghost var want := SampledGrid(data, n);
      assert row == want[y];
      TakeSnoc(want, y);
      g := g + [row];
      y := y + 1;
    }
    TakeAll(SampledGrid(data, n));
  }
}
