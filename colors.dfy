/** The colour arithmetic of src/utils.js: parsing a CSS hex colour into an
    RGB triple exactly as `hexToRgb` does it, the (squared) Euclidean distance
    between two triples, the "first strictly nearest" choice both matching
    loops make, and the integer shading of `shadeColor` / `overlayShade`. */
module Colors {
  import opened Common

  /** An 8-bit channel: what `& 255` yields and what a pixel buffer holds. */
  type Byte = x: int | 0 <= x < 256

  datatype Rgb = Rgb(r: Byte, g: Byte, b: Byte)

  // ---------------------------------------------------------------------
  // parseInt(h, 16)

  predicate IsHexDigit(c: char) {
    '0' <= c <= '9' || 'a' <= c <= 'f' || 'A' <= c <= 'F'
  }

  predicate AllHexDigits(s: string) {
    forall i :: 0 <= i < |s| ==> IsHexDigit(s[i])
  }

  function HexDigitValue(c: char): (v: nat)
    requires IsHexDigit(c)
    ensures v < 16
  {
    if '0' <= c <= '9' then c as int - '0' as int
    else if 'a' <= c <= 'f' then c as int - 'a' as int + 10
    else c as int - 'A' as int + 10
  }

  /** ECMAScript's StrWhiteSpaceChar: the WhiteSpace code points (tab,
      vertical tab, form feed, space, no-break space, the byte order mark and
      the space separators) and the LineTerminator code points. */
  predicate IsJsWhiteSpace(c: char) {
    var k := c as int;
    k == 0x09 || k == 0x0A || k == 0x0B || k == 0x0C || k == 0x0D || k == 0x20
    || k == 0xA0 || k == 0x1680 || (0x2000 <= k <= 0x200A) || k == 0x2028
    || k == 0x2029 || k == 0x202F || k == 0x205F || k == 0x3000 || k == 0xFEFF
  }

  /** The leading white space that parseInt skips. */
  function TrimStart(s: string): (r: string)
    ensures |r| <= |s|
  {
    if |s| > 0 && IsJsWhiteSpace(s[0]) then TrimStart(s[1..]) else s
  }

  /** What is left is a suffix that does not start with white space, and
      everything cut off was white space. */
  lemma {:induction false} TrimStartFacts(s: string)
    ensures var r := TrimStart(s);
      && r == s[|s| - |r|..]
      && (r == [] || !IsJsWhiteSpace(r[0]))
      && forall i :: 0 <= i < |s| - |r| ==> IsJsWhiteSpace(s[i])
  {
    if |s| > 0 && IsJsWhiteSpace(s[0]) {
      TrimStartFacts(s[1..]);
      var r := TrimStart(s);
      forall i | 0 < i < |s| - |r| ensures IsJsWhiteSpace(s[i]) {
        assert s[i] == s[1..][i - 1];
      }
    }
  }

  /** Length of the longest prefix made of hex digits. */
  function HexPrefixLength(s: string): (n: nat)
    ensures n <= |s|
  {
    if |s| > 0 && IsHexDigit(s[0]) then 1 + HexPrefixLength(s[1..]) else 0
  }

  /** The prefix is all hex digits and the character after it is not one. */
  lemma {:induction false} HexPrefixFacts(s: string)
    ensures var n := HexPrefixLength(s);
      && (forall i :: 0 <= i < n ==> IsHexDigit(s[i]))
      && (n < |s| ==> !IsHexDigit(s[n]))
  {
    if |s| > 0 && IsHexDigit(s[0]) {
      HexPrefixFacts(s[1..]);
      var n := HexPrefixLength(s);
      forall i | 0 < i < n ensures IsHexDigit(s[i]) {
        assert s[i] == s[1..][i - 1];
      }
    }
  }

  function Pow16(n: nat): nat {
    if n == 0 then 1 else 16 * Pow16(n - 1)
  }

  /** The number a string of hex digits denotes, most significant first. */
  function HexValue(s: string): (v: nat)
    requires AllHexDigits(s)
    ensures v < Pow16(|s|)
  {
    if s == [] then 0
    else
      var init := s[..|s| - 1];
      assert AllHexDigits(init) by {
        forall i | 0 <= i < |init| ensures IsHexDigit(init[i]) { assert init[i] == s[i]; }
      }
      HexValue(init) * 16 + HexDigitValue(s[|s| - 1])
  }

  /** JavaScript's `parseInt(s, 16)`; `None` stands for NaN. Leading white
      space is skipped, one sign is read, a `0x`/`0X` prefix is dropped, and
      the longest run of hex digits that follows is the value. */
  function ParseIntHex(s: string): Option<int> {
    var t := TrimStart(s);
    var negative := |t| > 0 && t[0] == '-';
    var unsigned := if |t| > 0 && (t[0] == '-' || t[0] == '+') then t[1..] else t;
    var digits :=
      if |unsigned| >= 2 && unsigned[0] == '0' && (unsigned[1] == 'x' || unsigned[1] == 'X')
      then unsigned[2..] else unsigned;
    var n := HexPrefixLength(digits);
    HexPrefixFacts(digits);
    if n == 0 then None
    else
      var v: int := HexValue(digits[..n]);
      Some(if negative then -v else v)
  }

  /** A non-empty string of hex digits parses to its value. */
  lemma ParseIntHexDigits(s: string)
    requires s != [] && AllHexDigits(s)
    ensures ParseIntHex(s) == Some(HexValue(s))
  {
    assert !IsJsWhiteSpace(s[0]);
    assert TrimStart(s) == s;
    assert |s| >= 2 ==> s[1] != 'x' && s[1] != 'X';
    HexPrefixFacts(s);
    assert HexPrefixLength(s) == |s|;
    assert s[..|s|] == s;
  }

  // ---------------------------------------------------------------------
  // hexToRgb

  /** `s.replace(c, '')` for a one-character pattern: the first occurrence goes. */
  function RemoveFirst(s: string, c: char): (r: string)
    ensures c !in s ==> r == s
    ensures c in s ==> r == s[..IndexOf(s, c)] + s[IndexOf(s, c) + 1..]
  {
    if s == [] then []
    else if s[0] == c then s[1..]
    else
      assert c in s ==> c in s[1..] && IndexOf(s, c) == 1 + IndexOf(s[1..], c);
      [s[0]] + RemoveFirst(s[1..], c)
  }

  /** `h.split('').map(c => c + c).join('')`. */
  function DoubleEach(h: string): (r: string)
    ensures |r| == 2 * |h|
    ensures forall i :: 0 <= i < |h| ==> r[2 * i] == h[i] && r[2 * i + 1] == h[i]
  {
    if h == [] then []
    else
      var rest := DoubleEach(h[1..]);
      assert forall i :: 1 <= i < |h| ==> ([h[0], h[0]] + rest)[2 * i] == rest[2 * (i - 1)];
      [h[0], h[0]] + rest
  }

  /** The three channels `(num >> 16) & 255`, `(num >> 8) & 255` and
      `num & 255`. On a 32-bit two's complement value these are the floor
      quotient and the non-negative remainder, which is what Dafny's `/` and
      `%` compute for a positive divisor, also for negative numbers; the
      conversion to 32 bits drops only multiples of 2^32, which no channel sees. */
  function Channels(n: int): Rgb {
    Rgb((n / 65536) % 256, (n / 256) % 256, n % 256)
  }

  /** `hexToRgb`: drop the first `#`, expand a 3-character form, parse base 16.
      NaN shifts and masks to 0, so an unparsable string is black. */
  function HexToRgb(hex: string): Rgb {
    var h := RemoveFirst(hex, '#');
    var full := if |h| == 3 then DoubleEach(h) else h;
    match ParseIntHex(full)
    case None => Rgb(0, 0, 0)
    case Some(n) => Channels(n)
  }

  /** The byte two hex digits denote. */
  function PairValue(hi: char, lo: char): Byte
    requires IsHexDigit(hi) && IsHexDigit(lo)
  {
    HexDigitValue(hi) * 16 + HexDigitValue(lo)
  }

  /** A string of six hex digits as a number, digit by digit. */
  lemma {:induction false} HexValueSix(s: string)
    requires |s| == 6 && AllHexDigits(s)
    ensures HexValue(s) == PairValue(s[0], s[1]) * 65536 + PairValue(s[2], s[3]) * 256 + PairValue(s[4], s[5])
  {
    var d0, d1, d2, d3, d4, d5 := HexDigitValue(s[0]), HexDigitValue(s[1]), HexDigitValue(s[2]),
      HexDigitValue(s[3]), HexDigitValue(s[4]), HexDigitValue(s[5]);
    var s5, s4, s3, s2, s1 := s[..5], s[..4], s[..3], s[..2], s[..1];
    assert s5[..4] == s4 && s4[..3] == s3 && s3[..2] == s2 && s2[..1] == s1 && s1[..0] == [];
    assert HexValue(s1) == d0;
    assert HexValue(s2) == d0 * 16 + d1;
    assert HexValue(s3) == (d0 * 16 + d1) * 16 + d2;
    assert HexValue(s4) == ((d0 * 16 + d1) * 16 + d2) * 16 + d3;
    assert HexValue(s5) == (((d0 * 16 + d1) * 16 + d2) * 16 + d3) * 16 + d4;
    assert HexValue(s) == ((((d0 * 16 + d1) * 16 + d2) * 16 + d3) * 16 + d4) * 16 + d5;
  }

  lemma ChannelsOfBytes(hi: Byte, mid: Byte, lo: Byte)
    ensures Channels(hi * 65536 + mid * 256 + lo) == Rgb(hi, mid, lo)
  {
    var n := hi * 65536 + mid * 256 + lo;
    assert n / 65536 == hi;
    assert n / 256 == hi * 256 + mid;
    assert (hi * 256 + mid) % 256 == mid;
  }

  /** `#` and six hex digits is parsed as one base-16 number. */
  lemma HexToRgbParsesDigits(hex: string)
    requires |hex| == 7 && hex[0] == '#' && AllHexDigits(hex[1..])
    ensures HexToRgb(hex) == Channels(HexValue(hex[1..]))
  {
    assert RemoveFirst(hex, '#') == hex[1..];
    ParseIntHexDigits(hex[1..]);
  }

  /** `#RRGGBB` (hex digits in either case) gives the values of its three pairs. */
  lemma HexToRgbSixDigits(hex: string)
    requires |hex| == 7 && hex[0] == '#' && AllHexDigits(hex[1..])
    ensures HexToRgb(hex) == Rgb(PairValue(hex[1], hex[2]), PairValue(hex[3], hex[4]), PairValue(hex[5], hex[6]))
  {
    var h := hex[1..];
    assert h[0] == hex[1] && h[1] == hex[2] && h[2] == hex[3] && h[3] == hex[4] && h[4] == hex[5] && h[5] == hex[6];
    var hi, mid, lo := PairValue(h[0], h[1]), PairValue(h[2], h[3]), PairValue(h[4], h[5]);
    calc {
      HexToRgb(hex);
      { HexToRgbParsesDigits(hex); }
      Channels(HexValue(h));
      { HexValueSix(h); }
      Channels(hi as int * 65536 + mid as int * 256 + lo as int);
      { ChannelsOfBytes(hi, mid, lo); }
      Rgb(hi, mid, lo);
    }
  }

  /** `#` followed by six hex digits of either case. */
  predicate IsSixDigitHex(s: string) {
    |s| == 7 && s[0] == '#' && AllHexDigits(s[1..])
  }

  lemma HexDigitValueIgnoresCase(c: char)
    requires IsHexDigit(c)
    ensures IsHexDigit(LowerChar(c)) && HexDigitValue(LowerChar(c)) == HexDigitValue(c)
  {
  }

  /** Six-digit colours that differ only in letter case denote the same RGB. */
  lemma HexToRgbIgnoresCase(a: string, b: string)
    requires IsSixDigitHex(a) && IsSixDigitHex(b) && SameIgnoringCase(a, b)
    ensures HexToRgb(a) == HexToRgb(b)
  {
    var la, lb := ToLower(a), ToLower(b);
    forall i | 1 <= i < 7 ensures HexDigitValue(a[i]) == HexDigitValue(b[i]) {
      assert IsHexDigit(a[1..][i - 1]) && IsHexDigit(b[1..][i - 1]);
      assert la[i] == lb[i];
      HexDigitValueIgnoresCase(a[i]);
      HexDigitValueIgnoresCase(b[i]);
    }
    HexToRgbSixDigits(a);
    HexToRgbSixDigits(b);
  }

  /** `#RGB` is read as `#RRGGBB`, whatever the three characters are. */
  lemma HexToRgbShortForm(a: char, b: char, c: char)
    ensures HexToRgb(['#', a, b, c]) == HexToRgb(['#', a, a, b, b, c, c])
  {
    assert RemoveFirst(['#', a, b, c], '#') == [a, b, c];
    assert RemoveFirst(['#', a, a, b, b, c, c], '#') == [a, a, b, b, c, c];
    var h := [a, b, c];
    var r := DoubleEach(h);
    assert h[0] == a && h[1] == b && h[2] == c;
    assert r[2 * 0] == a && r[2 * 0 + 1] == a && r[2 * 1] == b && r[2 * 1 + 1] == b;
    assert r[2 * 2] == c && r[2 * 2 + 1] == c;
    assert r == [a, a, b, b, c, c];
  }

  // ---------------------------------------------------------------------
  // colorDist

  /** The square of `colorDist`. Both matching loops only compare distances
      with `<`; `Math.sqrt` is monotone and the squares (at most 3 * 255^2)
      are exact in a double, so the squared distance picks the same winner. */
  function SqDist(a: Rgb, b: Rgb): (d: nat)
    ensures d == 0 <==> a == b
  {
    var dr, dg, db := a.r - b.r, a.g - b.g, a.b - b.b;
    SquareNonNegative(dr);
    SquareNonNegative(dg);
    SquareNonNegative(db);
    dr * dr + dg * dg + db * db
  }

  lemma SquareNonNegative(x: int)
    ensures x * x >= 0
    ensures x * x == 0 <==> x == 0
  {
    if x < 0 {
      assert x * x == (-x) * (-x);
    }
  }

  lemma SqDistSymmetric(a: Rgb, b: Rgb)
    ensures SqDist(a, b) == SqDist(b, a)
  {
    assert (a.r - b.r) * (a.r - b.r) == (b.r - a.r) * (b.r - a.r);
    assert (a.g - b.g) * (a.g - b.g) == (b.g - a.g) * (b.g - a.g);
    assert (a.b - b.b) * (a.b - b.b) == (b.b - a.b) * (b.b - a.b);
  }

  // ---------------------------------------------------------------------
  // The first strictly nearest candidate

  /** Candidate `i` is at minimal distance from `target`, and every earlier
      candidate is strictly farther: the choice of a loop that starts from an
      infinite minimum and replaces its best only on a strictly smaller
      distance. */
  ghost predicate IsFirstNearest(target: Rgb, cands: seq<Rgb>, i: int) {
    && 0 <= i < |cands|
    && (forall j :: 0 <= j < |cands| ==> SqDist(target, cands[i]) <= SqDist(target, cands[j]))
    && (forall j :: 0 <= j < i ==> SqDist(target, cands[j]) > SqDist(target, cands[i]))
  }

  /** The index that scan settles on, computed prefix by prefix. */
  function NearestIndex(target: Rgb, cands: seq<Rgb>): (i: nat)
    requires |cands| > 0
    ensures IsFirstNearest(target, cands, i)
    decreases |cands|
  {
    if |cands| == 1 then 0
    else
      var init := cands[..|cands| - 1];
      var m := NearestIndex(target, init);
      assert forall j :: 0 <= j < |init| ==> init[j] == cands[j];
      if SqDist(target, cands[|cands| - 1]) < SqDist(target, cands[m]) then |cands| - 1 else m
  }

  /** One step of the scan: the first nearest of a longer prefix is the
      new candidate exactly when it is strictly closer than the old choice. */
  lemma NearestIndexStep(target: Rgb, cands: seq<Rgb>, i: nat)
    requires 0 < i < |cands|
    ensures var m := NearestIndex(target, cands[..i]);
      NearestIndex(target, cands[..i + 1])
        == if SqDist(target, cands[i]) < SqDist(target, cands[m]) then i else m
  {
    assert cands[..i + 1][..i] == cands[..i];
  }

  /** The running minimum of a matching loop; it starts at `Infinity`. */
  datatype Bound = Infinity | Finite(value: nat)

  /** `d < min`. */
  predicate Below(d: nat, min: Bound) {
    min.Infinity? || d < min.value
  }

  /** The best index and the running minimum of a scan that has looked
      at the first `i` candidates and replaces its best only on a strictly
      smaller distance. */
  function Scan(target: Rgb, cands: seq<Rgb>, i: nat): (r: (nat, Bound))
    requires i <= |cands|
    ensures r.0 == 0 || r.0 < i
    decreases i
  {
    if i == 0 then (0, Infinity)
    else
      var prev := Scan(target, cands, i - 1);
      var d := SqDist(target, cands[i - 1]);
      if Below(d, prev.1) then (i - 1, Finite(d)) else prev
  }

  /** After `i > 0` candidates the scan holds the first nearest of them and
      its distance. */
  lemma {:induction false} ScanIsNearest(target: Rgb, cands: seq<Rgb>, i: nat)
    requires 0 < i <= |cands|
    ensures Scan(target, cands, i).0 == NearestIndex(target, cands[..i])
    ensures Scan(target, cands, i).1 == Finite(SqDist(target, cands[Scan(target, cands, i).0]))
  {
    if i > 1 {
      ScanIsNearest(target, cands, i - 1);
      NearestIndexStep(target, cands, i - 1);
    }
  }

  /** The whole scan settles on `NearestIndex`. */
  lemma ScanDone(target: Rgb, cands: seq<Rgb>)
    requires |cands| > 0
    ensures Scan(target, cands, |cands|).0 == NearestIndex(target, cands)
  {
    ScanIsNearest(target, cands, |cands|);
    assert cands[..|cands|] == cands;
  }

  // ---------------------------------------------------------------------
  // shadeColor and overlayShade

  /** `Math.round`: the nearest integer, halves rounded up. */
  function JsRound(x: real): int {
    (x + 0.5).Floor
  }

  function AbsReal(x: real): real {
    if x < 0.0 then -x else x
  }

  /** The channel every component moves towards: black to darken, white to lighten. */
  function ShadeTarget(percent: real): int {
    if percent < 0.0 then 0 else 255
  }

  /** `Math.round((t - c) * p) + c`. */
  function ShadeChannel(c: Byte, t: int, p: real): int {
    JsRound((t - c) as real * p) + c
  }

  function LowerHexDigit(d: nat): (c: char)
    requires d < 16
    ensures IsHexDigit(c) && HexDigitValue(c) == d
    ensures '0' <= c <= '9' || 'a' <= c <= 'f'
  {
    if d < 10 then ('0' as int + d) as char else ('a' as int + d - 10) as char
  }

  /** The digits of `n.toString(16)` for a non-negative integer. */
  function HexDigitsOf(n: nat): (s: string)
    ensures |s| >= 1
    decreases n
  {
    if n < 16 then [LowerHexDigit(n)] else HexDigitsOf(n / 16) + [LowerHexDigit(n % 16)]
  }

  /** `v.toString(16)` for an integer, with a minus sign when negative. */
  function ToHexString(v: int): string {
    if v < 0 then "-" + HexDigitsOf(-v) else HexDigitsOf(v)
  }

  /** `s.padStart(2, '0')`. */
  function PadStart2(s: string): string {
    if |s| >= 2 then s else seq(2 - |s|, _ => '0') + s
  }

  /** A byte printed as two lower-case hex digits, high digit first. */
  lemma PadStart2Byte(v: Byte)
    ensures PadStart2(ToHexString(v)) == [LowerHexDigit(v / 16), LowerHexDigit(v % 16)]
  {
    if v < 16 {
      assert ToHexString(v) == [LowerHexDigit(v)];
    } else {
      assert HexDigitsOf(v / 16) == [LowerHexDigit(v / 16)];
    }
  }

  /** `#` followed by six lower-case hex digits. */
  predicate IsLowerHexColor(s: string) {
    && |s| == 7 && s[0] == '#'
    && forall i :: 1 <= i < 7 ==> '0' <= s[i] <= '9' || 'a' <= s[i] <= 'f'
  }

  /** `v.toString(16).padStart(2, '0')`. */
  function HexByte(v: int): (s: string)
    ensures 0 <= v < 256 ==> s == [LowerHexDigit(v / 16), LowerHexDigit(v % 16)]
  {
    if 0 <= v < 256 then PadStart2Byte(v); PadStart2(ToHexString(v))
    else PadStart2(ToHexString(v))
  }

  /** The template `#${rr}${gg}${bb}` that `shadeColor` fills in. */
  function FormatRgb(r: int, g: int, b: int): (s: string)
    ensures 0 <= r < 256 && 0 <= g < 256 && 0 <= b < 256 ==> IsLowerHexColor(s)
  {
    "#" + HexByte(r) + HexByte(g) + HexByte(b)
  }

  /** The text of a formatted colour: `#` and the two digits of each channel. */
  lemma FormatRgbDigits(c: Rgb)
    ensures var s := FormatRgb(c.r, c.g, c.b);
      && |s| == 7 && s[0] == '#' && AllHexDigits(s[1..])
      && s[1] == LowerHexDigit(c.r / 16) && s[2] == LowerHexDigit(c.r % 16)
      && s[3] == LowerHexDigit(c.g / 16) && s[4] == LowerHexDigit(c.g % 16)
      && s[5] == LowerHexDigit(c.b / 16) && s[6] == LowerHexDigit(c.b % 16)
  {
    var s := FormatRgb(c.r, c.g, c.b);
    assert s == ['#', LowerHexDigit(c.r / 16), LowerHexDigit(c.r % 16), LowerHexDigit(c.g / 16),
                 LowerHexDigit(c.g % 16), LowerHexDigit(c.b / 16), LowerHexDigit(c.b % 16)];
    forall i | 0 <= i < 6 ensures IsHexDigit(s[1..][i]) {
      assert s[1..][i] == s[i + 1];
    }
  }

  /** The two digits of a byte read back as the byte. */
  lemma PairOfByte(v: Byte)
    ensures PairValue(LowerHexDigit(v / 16), LowerHexDigit(v % 16)) == v
  {
  }

  /** Formatting a colour and reading it back with `hexToRgb` gives the colour. */
  lemma FormatRgbRoundTrip(c: Rgb)
    ensures HexToRgb(FormatRgb(c.r, c.g, c.b)) == c
  {
    var s := FormatRgb(c.r, c.g, c.b);
    FormatRgbDigits(c);
    HexToRgbSixDigits(s);
    PairOfByte(c.r);
    PairOfByte(c.g);
    PairOfByte(c.b);
  }

  /** `shadeColor`: move each channel the fraction |percent| of the way to the target. */
  function ShadeColor(hex: string, percent: real): (s: string)
    ensures -1.0 <= percent <= 1.0 ==> IsLowerHexColor(s)
  {
    var c := HexToRgb(hex);
    var t := ShadeTarget(percent);
    var p := AbsReal(percent);
    if -1.0 <= percent <= 1.0 then
      ShadeChannelBetween(c.r, t, p);
      ShadeChannelBetween(c.g, t, p);
      ShadeChannelBetween(c.b, t, p);
      FormatRgb(ShadeChannel(c.r, t, p), ShadeChannel(c.g, t, p), ShadeChannel(c.b, t, p))
    else
      FormatRgb(ShadeChannel(c.r, t, p), ShadeChannel(c.g, t, p), ShadeChannel(c.b, t, p))
  }

  lemma NonNegativeScale(d: real, p: real)
    requires d >= 0.0 && 0.0 <= p <= 1.0
    ensures 0.0 <= d * p <= d
  {
    assert d * p <= d * 1.0;
  }

  /** Rounding a real between two integers stays between them. */
  lemma JsRoundBetween(lo: int, hi: int, x: real)
    requires lo as real <= x <= hi as real
    ensures lo <= JsRound(x) <= hi
  {
    var f := (x + 0.5).Floor;
    assert f as real <= x + 0.5 < f as real + 1.0;
  }

  /** Darkening moves a channel down towards 0. */
  lemma DarkenBetween(c: Byte, p: real)
    requires 0.0 <= p <= 1.0
    ensures 0 <= ShadeChannel(c, 0, p) <= c
  {
    var k := c as real;
    var x := (0 - c) as real * p;
    assert (0 - c) as real == -k;
    NegatedScale(k, p);
    assert x == -(k * p);
    JsRoundBetween(-(c as int), 0, x);
  }

  /** `(-d) * p` lies between `-d` and 0 when `d >= 0` and `0 <= p <= 1`. */
  lemma NegatedScale(d: real, p: real)
    requires d >= 0.0 && 0.0 <= p <= 1.0
    ensures (-d) * p == -(d * p) && -d <= -(d * p) <= 0.0
  {
    NonNegativeScale(d, p);
  }

  /** Lightening moves a channel up towards 255. */
  lemma LightenBetween(c: Byte, p: real)
    requires 0.0 <= p <= 1.0
    ensures c <= ShadeChannel(c, 255, p) <= 255
  {
    var h: int := 255 - c;
    var d := h as real;
    var x := (255 - c) as real * p;
    assert (255 - c) as real == d;
    assert x == d * p;
    NonNegativeScale(d, p);
    JsRoundBetween(0, h, x);
  }

  /** With 0 <= p <= 1 a shaded channel lies between the channel and the
      target (0 when darkening, 255 when lightening). */
  lemma ShadeChannelBetween(c: Byte, t: int, p: real)
    requires t == 0 || t == 255
    requires 0.0 <= p <= 1.0
    ensures t == 0 ==> 0 <= ShadeChannel(c, t, p) <= c
    ensures t == 255 ==> c <= ShadeChannel(c, t, p) <= 255
  {
    if t == 0 {
      DarkenBetween(c, p);
    } else {
      LightenBetween(c, p);
    }
  }

  /** The three channels shaded: `shadeColor`'s arithmetic on a colour.
      Each moves towards the target and stays within a byte. */
  function ShadeRgb(c: Rgb, percent: real): (s: Rgb)
    requires -1.0 <= percent <= 1.0
    ensures percent < 0.0 ==> s.r <= c.r && s.g <= c.g && s.b <= c.b
    ensures percent >= 0.0 ==> s.r >= c.r && s.g >= c.g && s.b >= c.b
  {
    var t, p := ShadeTarget(percent), AbsReal(percent);
    ShadeChannelBetween(c.r, t, p);
    ShadeChannelBetween(c.g, t, p);
    ShadeChannelBetween(c.b, t, p);
    Rgb(ShadeChannel(c.r, t, p), ShadeChannel(c.g, t, p), ShadeChannel(c.b, t, p))
  }

  /** Read back with `hexToRgb`, the colour `shadeColor` returns is the
      shaded colour of its input. */
  lemma ShadeColorChannels(hex: string, percent: real)
    requires -1.0 <= percent <= 1.0
    ensures HexToRgb(ShadeColor(hex, percent)) == ShadeRgb(HexToRgb(hex), percent)
  {
    var c := ShadeRgb(HexToRgb(hex), percent);
    assert ShadeColor(hex, percent) == FormatRgb(c.r, c.g, c.b);
    FormatRgbRoundTrip(c);
  }

  /** `(r * 299 + g * 587 + b * 114) / 255000`. */
  function Brightness(c: Rgb): real {
    (c.r * 299 + c.g * 587 + c.b * 114) as real / 255000.0
  }

  /** The shade `overlayShade` applies: darken bright colours, lighten dark ones.
      Over the reals the test `brightness > 0.6` is the integer test below;
      the double quotient equals 0.6 exactly at 153000 and is far from it elsewhere. */
  function OverlayPercent(c: Rgb): (p: real)
    ensures p == -0.4 || p == 0.4
    ensures p < 0.0 <==> c.r * 299 + c.g * 587 + c.b * 114 > 153000
  {
    if Brightness(c) > 0.6 then -0.4 else 0.4
  }

  /** `overlayShade`: a contrasting shade of the cell colour for text drawn on it. */
  function OverlayShade(hex: string): (s: string)
    ensures IsLowerHexColor(s)
  {
    ShadeColor(hex, OverlayPercent(HexToRgb(hex)))
  }
}
