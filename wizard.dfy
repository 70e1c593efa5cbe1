/** The two-step import dialog of src/ImportWizard.js. Step 1 picks the
    pattern size and the crop; Next samples the cropped image into a grid.
    Step 2 shows a preview whose number of colours a slider reduces; Back
    returns to step 1 and Confirm hands the preview over. */
module Wizard {
  import opened Common
  import opened Colors
  import opened Usage
  import opened Reduce
  import opened Sampling

  /** `generateGrid` once the canvas has been drawn: the sampling loop over
      its pixel buffer. */
  method GenerateGrid(data: seq<Byte>, n: nat) returns (g: Grid)
    requires IsBuffer(data, n)
    ensures g == SampledGrid(data, n)
  {
    g := BuildGrid(data, n);
  }

  /** `Object.keys(getColorUsage(g)).length`. */
  method CountColors(g: Grid) returns (count: nat)
    ensures count == DistinctColorCount(g)
  {
    var usage := GetColorUsage(g);
    count := |usage.order|;
  }

  class ImportWizard {
    var step: nat
    var size: nat
    var grid: Option<Grid>
    var preview: Option<Grid>
    var reduceTo: int
    var maxColors: int

    /** The state the handlers keep: the preview is always the stored
        original reduced to the slider's value, and the slider's maximum is
        the original's number of colours. */
    ghost predicate Valid()
      reads this
    {
      && (step == 1 || step == 2)
      && (step == 2 ==> grid.Some?)
      && (grid.None? ==> preview.None?)
      && (grid.Some? ==>
            && preview == Some(ReduceColors(grid.value, reduceTo))
            && maxColors == DistinctColorCount(grid.value))
    }

    /** The dialog opens at step 1 with the editor's size, no grid yet and
        the slider at 1 of 1. */
    constructor(initialSize: nat)
      ensures Valid()
      ensures step == 1 && size == initialSize && grid == None && preview == None
      ensures reduceTo == 1 && maxColors == 1
    {
      step := 1;
      size := initialSize;
      grid := None;
      preview := None;
      reduceTo := 1;
      maxColors := 1;
    }

    /** The size selector of step 1: 100, 200 or 300 cells a side. */
    method SelectSize(choice: nat)
      requires Valid() && (choice == 100 || choice == 200 || choice == 300)
      modifies this
      ensures Valid()
      ensures size == choice
      ensures step == old(step) && grid == old(grid) && preview == old(preview)
      ensures reduceTo == old(reduceTo) && maxColors == old(maxColors)
    {
      size := choice;
    }

    /** `handleNext` on the pixels of the size x size canvas: sample the
        grid, count its colours, put the slider at that count and show the
        grid itself as the preview. */
    method Next(data: seq<Byte>)
      requires Valid() && IsBuffer(data, size)
      modifies this
      ensures Valid()
      ensures step == 2 && size == old(size)
      ensures grid == Some(SampledGrid(data, old(size))) && preview == grid
      ensures maxColors == reduceTo == DistinctColorCount(grid.value)
    {
      var g := GenerateGrid(data, size);
      var count := CountColors(g);
      Show(g, count);
    }

    /** The state updates of `handleNext` once the grid is generated. */
    method Show(g: Grid, count: nat)
      requires count == DistinctColorCount(g)
      modifies this
      ensures Valid()
      ensures step == 2 && size == old(size)
      ensures grid == Some(g) && preview == grid
      ensures maxColors == reduceTo == count
    {
      grid := Some(g);
      maxColors := count;
      reduceTo := count;
      ReduceColorsIdentity(g, count);
      preview := Some(g);
      step := 2;
    }

    /** `handleBack`: grid and preview stay for when Next is pressed again. */
    method Back()
      requires Valid()
      modifies this
      ensures Valid()
      ensures step == 1
      ensures size == old(size) && grid == old(grid) && preview == old(preview)
      ensures reduceTo == old(reduceTo) && maxColors == old(maxColors)
    {
      step := 1;
    }

    /** `handleReduceChange`: the slider always reduces the stored original,
        never the preview it replaces. */
    method ReduceChange(val: int)
      requires Valid() && step == 2
      modifies this
      ensures Valid()
      ensures grid.Some? && reduceTo == val && preview == Some(ReduceColors(grid.value, val))
      ensures step == old(step) && size == old(size) && grid == old(grid) && maxColors == old(maxColors)
      ensures reduceTo >= maxColors ==> preview == grid
    {
      reduceTo := val;
      preview := Some(ReduceColors(grid.value, val));
      if reduceTo >= maxColors {
        ReduceColorsIdentity(grid.value, val);
      }
    }

    /** `handleConfirm`: what `onComplete` receives. */
    method Confirm() returns (result: Option<Grid>)
      requires Valid()
      ensures result == preview
    {
      result := preview;
    }
  }

  /** At step 2 the preview has the original's shape, keeps its empty cells
      and uses at most `reduceTo` of its colours, all of them original ones. */
  lemma PreviewFacts(g: Grid, k: int)
    requires k > 0
    ensures var p := ReduceColors(g, k);
      && |p| == |g| && (forall i :: 0 <= i < |g| ==> |p[i]| == |g[i]|)
      && UsedColorSet(p) <= UsedColorSet(g)
      && DistinctColorCount(p) <= k
  {
    ReduceColorsUsesKept(g, k);
  }
}
