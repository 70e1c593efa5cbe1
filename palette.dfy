/** The DMC thread palette of src/ColorPalette.js, the facts about it the
    rest of the program relies on (fifty entries, upper-case `#RRGGBB`
    colours, distinct codes, distinct colours), the case-insensitive lookup
    of an entry by colour, and `findClosestDmcColor`. */
module Palette {
  import opened Common
  import opened Colors

  /** One thread: its display name, its DMC code and its colour. */
  datatype DmcEntry = DmcEntry(name: string, code: string, hex: string)

  /** `DMC_COLORS`, in its order. */
  const DmcColors: seq<DmcEntry> :=
    [
    DmcEntry("White", "B5200", "#FFFFFF"),
    DmcEntry("Snow White", "Blanc", "#F8F8F0"),
    DmcEntry("Black", "310", "#000000"),
    DmcEntry("Dark Brown", "3371", "#3F2D24"),
    DmcEntry("Red", "321", "#C41E3A"),
    DmcEntry("Dark Red", "498", "#8B1B1B"),
    DmcEntry("Very Light Yellow", "3078", "#FFFFC2"),
    DmcEntry("Yellow", "444", "#FFF200"),
    DmcEntry("Light Orange", "3824", "#FFB07C"),
    DmcEntry("Orange", "740", "#FF8000")
    ] +
    [
    DmcEntry("Dark Orange", "947", "#FC6C3F"),
    DmcEntry("Light Peach", "948", "#FFE0C0"),
    DmcEntry("Medium Peach", "754", "#FFD2B2"),
    DmcEntry("Coral", "351", "#FE5A50"),
    DmcEntry("Light Pink", "818", "#FFDDEE"),
    DmcEntry("Pink", "604", "#FFB7D5"),
    DmcEntry("Dark Pink", "602", "#E55B92"),
    DmcEntry("Lavender", "554", "#BBA1D6"),
    DmcEntry("Purple", "550", "#68377C"),
    DmcEntry("Light Purple", "553", "#A767A0")
    ] +
    [
    DmcEntry("Sky Blue", "3843", "#00BFFF"),
    DmcEntry("Very Light Blue", "775", "#BFDFFF"),
    DmcEntry("Baby Blue", "3325", "#6EC8E5"),
    DmcEntry("Blue", "797", "#003366"),
    DmcEntry("Royal Blue", "796", "#232F65"),
    DmcEntry("Navy", "939", "#252850"),
    DmcEntry("Light Teal", "3846", "#00B2A9"),
    DmcEntry("Teal", "959", "#4FC7B6"),
    DmcEntry("Pale Aqua", "964", "#B9E6DF"),
    DmcEntry("Green", "699", "#006442")
    ] +
    [
    DmcEntry("Light Green", "703", "#53B781"),
    DmcEntry("Emerald Green", "910", "#007A3D"),
    DmcEntry("Lime Green", "704", "#C4DF8A"),
    DmcEntry("Light Olive Green", "3348", "#A3C586"),
    DmcEntry("Olive Green", "936", "#455B23"),
    DmcEntry("Light Brown", "437", "#BFA178"),
    DmcEntry("Brown", "801", "#643A14"),
    DmcEntry("Light Tan", "3770", "#FBE8D3"),
    DmcEntry("Tan", "436", "#CDA36A"),
    DmcEntry("Very Light Gray", "762", "#D9D9D9")
    ] +
    [
    DmcEntry("Light Gray", "415", "#B4B4B4"),
    DmcEntry("Gray", "318", "#A0A0A0"),
    DmcEntry("Dark Gray", "317", "#666666"),
    DmcEntry("Ecru", "Ecru", "#F9F6ED"),
    DmcEntry("Mustard", "3822", "#F2D471"),
    DmcEntry("Light Gold", "728", "#FFD37F"),
    DmcEntry("Dark Gold", "782", "#BB8E36"),
    DmcEntry("Light Beige", "3866", "#E1D3C0"),
    DmcEntry("Pale Peach", "3771", "#FFD1BB"),
    DmcEntry("Rose", "335", "#D04B72")
    ]

  predicate IsUpperHexDigit(c: char) {
    '0' <= c <= '9' || 'A' <= c <= 'F'
  }

  /** The form every palette colour has: `#` and six upper-case hex digits. */
  predicate IsCanonicalHex(s: string) {
    && |s| == 7 && s[0] == '#'
    && IsUpperHexDigit(s[1]) && IsUpperHexDigit(s[2]) && IsUpperHexDigit(s[3])
    && IsUpperHexDigit(s[4]) && IsUpperHexDigit(s[5]) && IsUpperHexDigit(s[6])
  }

  /** The number a canonical colour denotes. */
  function SixKey(s: string): nat
    requires IsCanonicalHex(s)
  {
    PairValue(s[1], s[2]) * 65536 + PairValue(s[3], s[4]) * 256 + PairValue(s[5], s[6])
  }

  /** The palette position of a colour number, -1 when it is no palette colour. */
  ghost function ColorPosition(v: int): int {
    if v == 16777215 then 0
    else if v == 16316656 then 1
    else if v == 0 then 2
    else if v == 4140324 then 3
    else if v == 12852794 then 4
    else if v == 9116443 then 5
    else if v == 16777154 then 6
    else if v == 16773632 then 7
    else if v == 16756860 then 8
    else if v == 16744448 then 9
    else if v == 16542783 then 10
    else if v == 16769216 then 11
    else if v == 16765618 then 12
    else if v == 16669264 then 13
    else if v == 16768494 then 14
    else if v == 16758741 then 15
    else if v == 15031186 then 16
    else if v == 12296662 then 17
    else if v == 6829948 then 18
    else if v == 10971040 then 19
    else if v == 49151 then 20
    else if v == 12574719 then 21
    else if v == 7260389 then 22
    else if v == 13158 then 23
    else if v == 2305893 then 24
    else if v == 2435152 then 25
    else if v == 45737 then 26
    else if v == 5228470 then 27
    else if v == 12183263 then 28
    else if v == 25666 then 29
    else if v == 5486465 then 30
    else if v == 31293 then 31
    else if v == 12902282 then 32
    else if v == 10732934 then 33
    else if v == 4545315 then 34
    else if v == 12558712 then 35
    else if v == 6568468 then 36
    else if v == 16509139 then 37
    else if v == 13476714 then 38
    else if v == 14277081 then 39
    else if v == 11842740 then 40
    else if v == 10526880 then 41
    else if v == 6710886 then 42
    else if v == 16381677 then 43
    else if v == 15914097 then 44
    else if v == 16765823 then 45
    else if v == 12291638 then 46
    else if v == 14799808 then 47
    else if v == 16765371 then 48
    else if v == 13650802 then 49
    else -1
  }

  /** An injective numbering of strings, read from position `i` on. */
  function CodeKey(s: string, i: nat): int
    decreases |s| - i
  {
    if i >= |s| then 0 else (s[i] as int + 1) + 257 * CodeKey(s, i + 1)
  }

  /** The palette position of a code's number, -1 when it is no palette code. */
  ghost function CodePosition(v: int): int {
    if v == 214596187150 then 0
    else if v == 438137720805 then 1
    else if v == 3249303 then 2
    else if v == 852441810 then 3
    else if v == 3315609 then 4
    else if v == 3779752 then 5
    else if v == 971263190 then 6
    else if v == 3514271 then 7
    else if v == 903036629 then 8
    else if v == 3250078 then 9
    else if v == 3712423 then 10
    else if v == 3778472 then 11
    else if v == 3514531 then 12
    else if v == 3316380 then 13
    else if v == 3777700 then 14
    else if v == 3513245 then 15
    else if v == 3381147 then 16
    else if v == 3514529 then 17
    else if v == 3250333 then 18
    else if v == 3448480 then 19
    else if v == 886194134 then 20
    else if v == 3581094 then 21
    else if v == 920009937 then 22
    else if v == 3713706 then 23
    else if v == 3647657 then 24
    else if v == 3844264 then 25
    else if v == 937117913 then 26
    else if v == 3844778 then 27
    else if v == 3514790 then 28
    else if v == 3845803 then 29
    else if v == 3447197 then 30
    else if v == 3249309 then 31
    else if v == 3513246 then 32
    else if v == 971065814 then 33
    else if v == 3646117 then 34
    else if v == 3712161 then 35
    else if v == 3315100 then 36
    else if v == 835468245 then 37
    else if v == 3646112 then 38
    else if v == 3382690 then 39
    else if v == 3579549 then 40
    else if v == 3777695 then 41
    else if v == 3711646 then 42
    else if v == 2010623379 then 43
    else if v == 869087443 then 44
    else if v == 3777956 then 45
    else if v == 3383204 then 46
    else if v == 937250011 then 47
    else if v == 852442838 then 48
    else if v == 3580062 then 49
    else -1
  }

  lemma PositionCases(i: int)
    requires 0 <= i < 50
    ensures i == 0 || i == 1 || i == 2 || i == 3 || i == 4 || i == 5 || i == 6 || i == 7 || i == 8 || i == 9 || i == 10 || i == 11 || i == 12 || i == 13 || i == 14 || i == 15 || i == 16 || i == 17 || i == 18 || i == 19 || i == 20 || i == 21 || i == 22 || i == 23 || i == 24 || i == 25 || i == 26 || i == 27 || i == 28 || i == 29 || i == 30 || i == 31 || i == 32 || i == 33 || i == 34 || i == 35 || i == 36 || i == 37 || i == 38 || i == 39 || i == 40 || i == 41 || i == 42 || i == 43 || i == 44 || i == 45 || i == 46 || i == 47 || i == 48 || i == 49
  {
  }

  lemma ColorFacts0(i: int)
    requires 0 <= i < 5
    ensures IsCanonicalHex(DmcColors[i].hex) && ColorPosition(SixKey(DmcColors[i].hex)) == i
  {
    PositionCases(i);
  }

  lemma ColorFacts5(i: int)
    requires 5 <= i < 10
    ensures IsCanonicalHex(DmcColors[i].hex) && ColorPosition(SixKey(DmcColors[i].hex)) == i
  {
    PositionCases(i);
  }

  lemma ColorFacts10(i: int)
    requires 10 <= i < 15
    ensures IsCanonicalHex(DmcColors[i].hex) && ColorPosition(SixKey(DmcColors[i].hex)) == i
  {
    PositionCases(i);
  }

  lemma ColorFacts15(i: int)
    requires 15 <= i < 20
    ensures IsCanonicalHex(DmcColors[i].hex) && ColorPosition(SixKey(DmcColors[i].hex)) == i
  {
    PositionCases(i);
  }

  lemma ColorFacts20(i: int)
    requires 20 <= i < 25
    ensures IsCanonicalHex(DmcColors[i].hex) && ColorPosition(SixKey(DmcColors[i].hex)) == i
  {
    PositionCases(i);
  }

  lemma ColorFacts25(i: int)
    requires 25 <= i < 30
    ensures IsCanonicalHex(DmcColors[i].hex) && ColorPosition(SixKey(DmcColors[i].hex)) == i
  {
    PositionCases(i);
  }

  lemma ColorFacts30(i: int)
    requires 30 <= i < 35
    ensures IsCanonicalHex(DmcColors[i].hex) && ColorPosition(SixKey(DmcColors[i].hex)) == i
  {
    PositionCases(i);
  }

  lemma ColorFacts35(i: int)
    requires 35 <= i < 40
    ensures IsCanonicalHex(DmcColors[i].hex) && ColorPosition(SixKey(DmcColors[i].hex)) == i
  {
    PositionCases(i);
  }

  lemma ColorFacts40(i: int)
    requires 40 <= i < 45
    ensures IsCanonicalHex(DmcColors[i].hex) && ColorPosition(SixKey(DmcColors[i].hex)) == i
  {
    PositionCases(i);
  }

  lemma ColorFacts45(i: int)
    requires 45 <= i < 50
    ensures IsCanonicalHex(DmcColors[i].hex) && ColorPosition(SixKey(DmcColors[i].hex)) == i
  {
    PositionCases(i);
  }

  lemma CodeFacts0(i: int)
    requires 0 <= i < 10
    ensures |DmcColors[i].code| > 0 && CodePosition(CodeKey(DmcColors[i].code, 0)) == i
  {
    PositionCases(i);
  }

  lemma CodeFacts10(i: int)
    requires 10 <= i < 20
    ensures |DmcColors[i].code| > 0 && CodePosition(CodeKey(DmcColors[i].code, 0)) == i
  {
    PositionCases(i);
  }

  lemma CodeFacts20(i: int)
    requires 20 <= i < 30
    ensures |DmcColors[i].code| > 0 && CodePosition(CodeKey(DmcColors[i].code, 0)) == i
  {
    PositionCases(i);
  }

  lemma CodeFacts30(i: int)
    requires 30 <= i < 40
    ensures |DmcColors[i].code| > 0 && CodePosition(CodeKey(DmcColors[i].code, 0)) == i
  {
    PositionCases(i);
  }

  lemma CodeFacts40(i: int)
    requires 40 <= i < 50
    ensures |DmcColors[i].code| > 0 && CodePosition(CodeKey(DmcColors[i].code, 0)) == i
  {
    PositionCases(i);
  }

  /** What holds of each entry: a canonical colour, a non-empty code, and
      numbers for both that identify the entry's position. */
  lemma EntryFacts(i: int)
    requires 0 <= i < |DmcColors|
    ensures IsCanonicalHex(DmcColors[i].hex) && ColorPosition(SixKey(DmcColors[i].hex)) == i
    ensures |DmcColors[i].code| > 0 && CodePosition(CodeKey(DmcColors[i].code, 0)) == i
  {
    if i < 5 { ColorFacts0(i); } else if i < 10 { ColorFacts5(i); }
    else if i < 15 { ColorFacts10(i); } else if i < 20 { ColorFacts15(i); }
    else if i < 25 { ColorFacts20(i); } else if i < 30 { ColorFacts25(i); }
    else if i < 35 { ColorFacts30(i); } else if i < 40 { ColorFacts35(i); }
    else if i < 45 { ColorFacts40(i); } else { ColorFacts45(i); }
    if i < 10 { CodeFacts0(i); }
    else if i < 20 { CodeFacts10(i); }
    else if i < 30 { CodeFacts20(i); }
    else if i < 40 { CodeFacts30(i); }
    else { CodeFacts40(i); }
  }

  lemma PaletteSize()
    ensures |DmcColors| == 50
  {
  }

  /** Every palette colour is `#` and six upper-case hex digits, and so
      also a well-formed input of `hexToRgb`. */
  lemma PaletteHexCanonical(i: int)
    requires 0 <= i < |DmcColors|
    ensures IsCanonicalHex(DmcColors[i].hex) && IsSixDigitHex(DmcColors[i].hex)
  {
    EntryFacts(i);
    CanonicalIsSixDigit(DmcColors[i].hex);
  }

  lemma CanonicalIsSixDigit(s: string)
    requires IsCanonicalHex(s)
    ensures IsSixDigitHex(s)
  {
    assert forall i :: 0 <= i < 6 ==> s[1..][i] == s[i + 1];
  }

  /** No two entries share a code, so the codes are valid React keys. */
  lemma CodesDistinct(i: int, j: int)
    requires 0 <= i < |DmcColors| && 0 <= j < |DmcColors|
    requires DmcColors[i].code == DmcColors[j].code
    ensures i == j
  {
    EntryFacts(i);
    EntryFacts(j);
  }

  /** Two canonical colours equal up to letter case are equal. */
  lemma CanonicalCaseInsensitive(a: string, b: string)
    requires IsCanonicalHex(a) && IsCanonicalHex(b) && SameIgnoringCase(a, b)
    ensures a == b
  {
    var la, lb := ToLower(a), ToLower(b);
    forall i | 0 <= i < 7 ensures a[i] == b[i] {
      assert la[i] == lb[i];
    }
  }

  /** No two entries have the same colour, even ignoring letter case. */
  lemma HexesDistinct(i: int, j: int)
    requires 0 <= i < |DmcColors| && 0 <= j < |DmcColors|
    requires SameIgnoringCase(DmcColors[i].hex, DmcColors[j].hex)
    ensures i == j
  {
    EntryFacts(i);
    EntryFacts(j);
    CanonicalCaseInsensitive(DmcColors[i].hex, DmcColors[j].hex);
  }

  /** `hexToRgb(c.hex)` for every entry `c`, in palette order. */
  function PaletteRgbs(): (s: seq<Rgb>)
    ensures |s| == |DmcColors|
  {
    seq(|DmcColors|, i requires 0 <= i < |DmcColors| => HexToRgb(DmcColors[i].hex))
  }

  function RgbKey(c: Rgb): nat {
    c.r * 65536 + c.g * 256 + c.b
  }

  lemma PaletteRgbKey(i: int)
    requires 0 <= i < |DmcColors|
    ensures IsCanonicalHex(DmcColors[i].hex)
    ensures RgbKey(PaletteRgbs()[i]) == SixKey(DmcColors[i].hex)
  {
    PaletteHexCanonical(i);
    HexToRgbSixDigits(DmcColors[i].hex);
  }

  /** The entries' colours are pairwise different RGB triples. */
  lemma RgbsDistinct(i: int, j: int)
    requires 0 <= i < |DmcColors| && 0 <= j < |DmcColors|
    requires PaletteRgbs()[i] == PaletteRgbs()[j]
    ensures i == j
  {
    PaletteRgbKey(i);
    PaletteRgbKey(j);
    EntryFacts(i);
    EntryFacts(j);
  }

  /** `s` is the colour of some palette entry, exactly as written there. */
  ghost predicate IsPaletteHex(s: string) {
    exists i :: 0 <= i < |DmcColors| && DmcColors[i].hex == s
  }

  /** The entry `findClosestDmcColor` settles on. */
  function ClosestIndex(rgb: Rgb): (i: nat)
    ensures i < |DmcColors| && IsFirstNearest(rgb, PaletteRgbs(), i)
  {
    NearestIndex(rgb, PaletteRgbs())
  }

  /** The colour of the first entry at minimal distance from `rgb`. */
  function ClosestDmc(rgb: Rgb): (hex: string)
    ensures IsPaletteHex(hex) && IsCanonicalHex(hex)
    ensures exists i :: IsFirstNearest(rgb, PaletteRgbs(), i) && DmcColors[i].hex == hex
  {
    var i := ClosestIndex(rgb);
    PaletteHexCanonical(i);
    DmcColors[i].hex
  }

  /** `findClosestDmcColor`: scan the palette keeping the entry with the
      strictly smallest distance seen so far. */
  method FindClosestDmcColor(rgb: Rgb) returns (hex: string)
    ensures hex == ClosestDmc(rgb)
  {
    var cands := PaletteRgbs();
    var n := |DmcColors|;
    var minDist: Bound := Infinity;
    var closest := DmcColors[0];
    ghost var m := 0;
    var i := 0;
    while i < n
      invariant i <= n && (m, minDist) == Scan(rgb, cands, i) && closest == DmcColors[m]
    {
      var c := DmcColors[i];
      var dmcRgb := HexToRgb(c.hex);
      var dist := SqDist(rgb, dmcRgb);
      assert dmcRgb == cands[i];
      if Below(dist, minDist) {
        minDist := Finite(dist);
        closest := c;
        m := i;
      }
      i := i + 1;
    }
    ScanDone(rgb, cands);
    hex := closest.hex;
  }

  /** A palette colour is matched to itself. */
  lemma ClosestOfPaletteColor(k: int)
    requires 0 <= k < |DmcColors|
    ensures ClosestDmc(HexToRgb(DmcColors[k].hex)) == DmcColors[k].hex
  {
    var rgbs := PaletteRgbs();
    var rgb := rgbs[k];
    var i := ClosestIndex(rgb);
    assert SqDist(rgb, rgbs[i]) <= SqDist(rgb, rgbs[k]);
    RgbsDistinct(i, k);
  }

  /** The first entry at or after `i` whose colour equals `hex` ignoring case. */
  function FindFrom(hex: string, i: nat): (r: Option<nat>)
    requires i <= |DmcColors|
    ensures r.Some? ==> i <= r.value < |DmcColors| && SameIgnoringCase(DmcColors[r.value].hex, hex)
    ensures r.Some? ==> forall j :: i <= j < r.value ==> !SameIgnoringCase(DmcColors[j].hex, hex)
    ensures r.None? ==> forall j :: i <= j < |DmcColors| ==> !SameIgnoringCase(DmcColors[j].hex, hex)
    decreases |DmcColors| - i
  {
    if i == |DmcColors| then None
    else if SameIgnoringCase(DmcColors[i].hex, hex) then Some(i)
    else FindFrom(hex, i + 1)
  }

  /** `DMC_COLORS.find(c => c.hex.toLowerCase() === hex.toLowerCase())`. */
  function FindEntry(hex: string): Option<nat> {
    FindFrom(hex, 0)
  }

  /** Any spelling of a palette colour, in any letter case, finds that entry. */
  lemma FindEntryOfPaletteColor(hex: string, k: int)
    requires 0 <= k < |DmcColors| && SameIgnoringCase(hex, DmcColors[k].hex)
    ensures FindEntry(hex) == Some(k)
  {
    var r := FindEntry(hex);
    assert SameIgnoringCase(DmcColors[k].hex, hex);
    assert r.Some? && r.value <= k;
    HexesDistinct(r.value, k);
  }

  /** A colour matching some entry ignoring case is found; one matching none is not. */
  lemma FindEntryFound(hex: string)
    ensures FindEntry(hex).Some? <==> exists k :: 0 <= k < |DmcColors| && SameIgnoringCase(DmcColors[k].hex, hex)
  {
  }
}
