/** The swatch list of src/UsedColors.js: one swatch per listed colour, in
    the order given, labelled with the code of the palette entry whose
    colour matches ignoring letter case, or with nothing. The page of
    src/DeepDive.js lists the colours of its section's usage table. */
module UsedColors {
  import opened Common
  import opened Palette
  import opened Usage
  import opened GridView

  /** One swatch: its colour, which is also its React key, and the label
      under it. */
  datatype Swatch = Swatch(hex: string, code: string)

  /** `dmc ? dmc.code : ''` for `dmc` the first entry matching `hex`. */
  function CodeOf(hex: string): string {
    match FindEntry(hex)
    case None => ""
    case Some(i) => DmcColors[i].code
  }

  /** `colors.map(...)`: one swatch for every colour, in the order given,
      each with the label of its own colour. */
  function Swatches(colors: seq<string>): (r: seq<Swatch>)
    ensures |r| == |colors|
    ensures forall i :: 0 <= i < |r| ==> r[i].hex == colors[i] && r[i].code == CodeOf(colors[i])
  {
    seq(|colors|, i requires 0 <= i < |colors| => Swatch(colors[i], CodeOf(colors[i])))
  }

  /** The label is the code of the first entry that matches. */
  lemma CodeOfFirstMatch(hex: string, k: int)
    requires 0 <= k < |DmcColors| && SameIgnoringCase(DmcColors[k].hex, hex)
    requires forall j :: 0 <= j < k ==> !SameIgnoringCase(DmcColors[j].hex, hex)
    ensures CodeOf(hex) == DmcColors[k].code
  {
    var r := FindEntry(hex);
    assert r.Some?;
    assert r.value <= k;
    assert r.value >= k;
  }

  /** The label is empty exactly when no entry matches. */
  lemma CodeOfEmpty(hex: string)
    ensures CodeOf(hex) == "" <==> forall k :: 0 <= k < |DmcColors| ==> !SameIgnoringCase(DmcColors[k].hex, hex)
  {
    FindEntryFound(hex);
    var r := FindEntry(hex);
    if r.Some? {
      EntryFacts(r.value);
    }
  }

  /** Any spelling of the colour of entry `k` is labelled with its code. */
  lemma CodeOfPaletteColor(hex: string, k: int)
    requires 0 <= k < |DmcColors| && SameIgnoringCase(hex, DmcColors[k].hex)
    ensures CodeOf(hex) == DmcColors[k].code
  {
    FindEntryOfPaletteColor(hex, k);
  }

  /** Two colours with the same non-empty label are the same colour up to
      letter case: a code names one palette colour. */
  lemma CodeIdentifiesColor(a: string, b: string)
    requires CodeOf(a) == CodeOf(b) != ""
    ensures SameIgnoringCase(a, b)
  {
    var i := FindEntry(a).value;
    var j := FindEntry(b).value;
    CodesDistinct(i, j);
  }

  /** A swatch has a label exactly when the editor's tooltip for the same
      non-empty cell names a palette entry. */
  lemma LabelAgreesWithTooltip(hex: string)
    requires hex != ""
    ensures CodeOf(hex) != "" <==> HexToDmc(hex) != ""
  {
    CodeOfEmpty(hex);
    HexToDmcFound(hex);
  }

  /** The key of a swatch is its colour, so a list without repeats gives
      no two swatches the same key. */
  lemma KeysDistinct(colors: seq<string>)
    requires Distinct(colors)
    ensures forall i, j :: 0 <= i < j < |colors| ==> Swatches(colors)[i].hex != Swatches(colors)[j].hex
  {
    var r := Swatches(colors);
    forall i, j | 0 <= i < j < |colors| ensures r[i].hex != r[j].hex {
      assert r[i].hex == colors[i] && r[j].hex == colors[j];
    }
  }

  /** A list of distinct colours that lists exactly the set `used` gives
      one swatch per colour of `used`, and no key twice. */
  lemma SwatchesOfSet(colors: seq<string>, used: set<string>)
    requires Distinct(colors) && forall c :: c in colors <==> c in used
    ensures var s := Swatches(colors);
      && (forall i :: 0 <= i < |s| ==> s[i].hex in used)
      && (forall c :: c in used ==> exists i :: 0 <= i < |s| && s[i].hex == c)
      && (forall i, j :: 0 <= i < j < |s| ==> s[i].hex != s[j].hex)
  {
    var s := Swatches(colors);
    KeysDistinct(colors);
    forall c | c in used ensures exists i :: 0 <= i < |s| && s[i].hex == c {
      var i :| 0 <= i < |colors| && colors[i] == c;
      assert s[i].hex == c;
    }
  }

  /** The section page lists `Object.keys(getColorUsage(subGrid))`: one
      swatch for each colour of the section, none for the empty cell, and
      no key twice. */
  lemma SectionSwatches(g: Grid)
    ensures var s := Swatches(ColorUsage(g).order);
      && |s| == DistinctColorCount(g)
      && (forall i :: 0 <= i < |s| ==> s[i].hex in UsedColorSet(g))
      && (forall c :: c in UsedColorSet(g) ==> exists i :: 0 <= i < |s| && s[i].hex == c)
      && (forall i, j :: 0 <= i < j < |s| ==> s[i].hex != s[j].hex)
  {
    var u := ColorUsage(g);
    UsageOfGrid(g);
    OrderDistinct(u, Cells(g));
    SwatchesOfSet(u.order, UsedColorSet(g));
  }
}
