/** `reduceColors` of src/utils.js: keep the `targetCount` most used colours
    of a grid and repaint every other cell with the nearest kept colour. */
module Reduce {
  import opened Common
  import opened Colors
  import opened Usage

  // ---------------------------------------------------------------------
  // Ranking the colours: `Object.entries(counts).sort((a, b) => b[1] - a[1])`

  /** Where a stable sort by descending count places `key` among `ranked`:
      after every colour counted at least as often. */
  function InsertPoint(ranked: seq<string>, key: string, u: UsageTable): (p: nat)
    ensures p <= |ranked|
  {
    if ranked == [] || UsageCount(u, ranked[0]) < UsageCount(u, key) then 0
    else 1 + InsertPoint(ranked[1..], key, u)
  }

  /** Every colour before the insertion point is counted at least as often
      as `key`, and the one at it less often. */
  lemma {:induction false} InsertPointFacts(ranked: seq<string>, key: string, u: UsageTable)
    ensures var p := InsertPoint(ranked, key, u);
      && (forall i :: 0 <= i < p ==> UsageCount(u, ranked[i]) >= UsageCount(u, key))
      && (p < |ranked| ==> UsageCount(u, ranked[p]) < UsageCount(u, key))
  {
    if !(ranked == [] || UsageCount(u, ranked[0]) < UsageCount(u, key)) {
      InsertPointFacts(ranked[1..], key, u);
      var p := InsertPoint(ranked, key, u);
      forall i | 0 < i < p ensures UsageCount(u, ranked[i]) >= UsageCount(u, key) {
        assert ranked[i] == ranked[1..][i - 1];
      }
      if p < |ranked| {
        assert ranked[p] == ranked[1..][p - 1];
      }
    }
  }

  /** `r` with `x` inserted at position `p`. */
  function InsertAt(r: seq<string>, p: nat, x: string): (r': seq<string>)
    requires p <= |r|
    ensures |r'| == |r| + 1
  {
    r[..p] + [x] + r[p..]
  }

  /** The inserted sequence has `x` at `p`, the old elements around it, and
      one `x` more. */
  lemma InsertAtFacts(r: seq<string>, p: nat, x: string)
    requires p <= |r|
    ensures var r' := InsertAt(r, p, x);
      && r'[p] == x
      && (forall i :: 0 <= i < p ==> r'[i] == r[i])
      && (forall i :: p < i < |r'| ==> r'[i] == r[i - 1])
      && multiset(r') == multiset(r) + multiset{x}
  {
    assert r == r[..p] + r[p..];
  }

  /** The entries in the order the stable sort leaves them, built by
      inserting the keys one after the other in their listing order. */
  function RankByCount(keys: seq<string>, u: UsageTable): seq<string> {
    if keys == [] then []
    else
      var ranked := RankByCount(keys[..|keys| - 1], u);
      InsertAt(ranked, InsertPoint(ranked, keys[|keys| - 1], u), keys[|keys| - 1])
  }

  /** `a` comes before `b` in a stable sort of `keys` by descending count:
      it is counted more often, or as often and listed earlier. */
  ghost predicate RankedBefore(keys: seq<string>, u: UsageTable, a: string, b: string)
    requires a in keys && b in keys
  {
    || UsageCount(u, a) > UsageCount(u, b)
    || (UsageCount(u, a) == UsageCount(u, b) && IndexOf(keys, a) < IndexOf(keys, b))
  }

  /** Every element of `r` is a key and `r` is in stable descending count order. */
  ghost predicate SortedByCount(r: seq<string>, keys: seq<string>, u: UsageTable) {
    && (forall i :: 0 <= i < |r| ==> r[i] in keys)
    && (forall i, j :: 0 <= i < j < |r| ==> RankedBefore(keys, u, r[i], r[j]))
  }

  /** `r` lists exactly the keys, each once, in stable descending count order. */
  ghost predicate IsRanking(r: seq<string>, keys: seq<string>, u: UsageTable) {
    multiset(r) == multiset(keys) && SortedByCount(r, keys, u)
  }

  /** The insertion order above is the order `Array.prototype.sort` (a stable
      sort) produces with the comparator `b[1] - a[1]`. */
  lemma {:induction false} RankByCountIsRanking(keys: seq<string>, u: UsageTable)
    requires Distinct(keys)
    ensures IsRanking(RankByCount(keys, u), keys, u)
  {
    if keys != [] {
      var init, x := keys[..|keys| - 1], keys[|keys| - 1];
      assert keys == init + [x];
      assert Distinct(init);
      assert x !in init;
      RankByCountIsRanking(init, u);
      var r := RankByCount(init, u);
      var p := InsertPoint(r, x, u);
      InsertAtFacts(r, p, x);
      forall c | c in init ensures IndexOf(keys, c) == IndexOf(init, c) {
        IndexOfAppend(init, x, c);
      }
      IndexOfAppendNew(init, x);
      InsertKeepsSorted(init, x, u, r, p);
    }
  }

  lemma InsertKeepsSorted(init: seq<string>, x: string, u: UsageTable, r: seq<string>, p: nat)
    requires SortedByCount(r, init, u)
    requires p == InsertPoint(r, x, u)
    requires forall c :: c in init ==> IndexOf(init + [x], c) == IndexOf(init, c)
    requires IndexOf(init + [x], x) == |init|
    ensures SortedByCount(InsertAt(r, p, x), init + [x], u)
  {
    var keys := init + [x];
    var r' := InsertAt(r, p, x);
    InsertPointFacts(r, x, u);
    InsertAtFacts(r, p, x);
    forall i | 0 <= i < |r'| ensures r'[i] in keys {
      if i != p { assert r'[i] in init; }
    }
    forall i, j | 0 <= i < j < |r'| ensures RankedBefore(keys, u, r'[i], r'[j]) {
      if i == p {
        if j - 1 > p {
          assert RankedBefore(init, u, r[p], r[j - 1]);
        }
        InsertedBefore(init, x, u, r[j - 1]);
      } else if j == p {
        KeptBeforeInserted(init, x, u, r[i]);
      } else {
        var i0 := if i < p then i else i - 1;
        var j0 := if j < p then j else j - 1;
        assert r'[i] == r[i0] && r'[j] == r[j0] && i0 < j0;
        KeptPairOrder(init, x, u, r[i0], r[j0]);
      }
    }
  }

  /** Two old keys keep their relative rank. */
  lemma KeptPairOrder(init: seq<string>, x: string, u: UsageTable, a: string, b: string)
    requires a in init && b in init && RankedBefore(init, u, a, b)
    requires IndexOf(init + [x], a) == IndexOf(init, a) && IndexOf(init + [x], b) == IndexOf(init, b)
    ensures RankedBefore(init + [x], u, a, b)
  {
  }

  /** An old key counted at least as often as the new one stays before it. */
  lemma KeptBeforeInserted(init: seq<string>, x: string, u: UsageTable, a: string)
    requires a in init && UsageCount(u, a) >= UsageCount(u, x)
    requires IndexOf(init + [x], a) == IndexOf(init, a) && IndexOf(init + [x], x) == |init|
    ensures RankedBefore(init + [x], u, a, x)
  {
  }

  /** The new key goes before every old key counted less often. */
  lemma InsertedBefore(init: seq<string>, x: string, u: UsageTable, b: string)
    requires b in init && UsageCount(u, b) < UsageCount(u, x)
    ensures RankedBefore(init + [x], u, x, b)
  {
  }

  /** Ranked colours are pairwise different. */
  lemma RankingDistinct(r: seq<string>, keys: seq<string>, u: UsageTable)
    requires IsRanking(r, keys, u)
    ensures Distinct(r)
  {
    forall i, j | 0 <= i < j < |r| ensures r[i] != r[j] {
      assert RankedBefore(keys, u, r[i], r[j]);
    }
  }

  // ---------------------------------------------------------------------
  // The colours kept

  /** `.slice(0, targetCount).map(([hex]) => hex)` of the ranked entries. */
  function TopColors(u: UsageTable, k: nat): seq<string> {
    var ranked := RankByCount(u.order, u);
    ranked[..Min(k, |ranked|)]
  }

  /** For a table whose keys are listed once, the ranking lists each key
      once. */
  lemma RankingOfTable(u: UsageTable)
    requires Distinct(u.order)
    ensures var ranked := RankByCount(u.order, u);
      && IsRanking(ranked, u.order, u) && Distinct(ranked) && |ranked| == |u.order|
      && (forall c :: c in ranked <==> c in u.order)
  {
    RankByCountIsRanking(u.order, u);
    var ranked := RankByCount(u.order, u);
    RankingDistinct(ranked, u.order, u);
    assert |ranked| == |multiset(ranked)| == |multiset(u.order)| == |u.order|;
    forall c ensures c in ranked <==> c in u.order {
      assert c in ranked <==> c in multiset(ranked);
    }
  }

  /** A prefix of a sequence without repeats has none either. */
  lemma PrefixDistinct(s: seq<string>, n: nat)
    requires Distinct(s) && n <= |s|
    ensures Distinct(s[..n]) && forall c :: c in s[..n] ==> c in s
  {
    var p := s[..n];
    forall c | c in p ensures c in s {
      var i := IndexOf(p, c);
      assert s[i] == c;
    }
    forall i, j | 0 <= i < j < |p| ensures p[i] != p[j] {
      assert p[i] == s[i] && p[j] == s[j];
    }
  }

  /** For a table whose keys are listed once, the first `k` ranked keys are
      `min(k, |keys|)` distinct keys, all of them when `k` is at least the
      number of keys. */
  lemma TopOfTable(u: UsageTable, k: nat)
    requires Distinct(u.order)
    ensures var top := TopColors(u, k);
      && |top| == Min(k, |u.order|) && Distinct(top)
      && (forall c :: c in top ==> c in u.order)
      && (k >= |u.order| ==> forall c :: c in u.order ==> c in top)
  {
    RankingOfTable(u);
    var ranked := RankByCount(u.order, u);
    PrefixDistinct(ranked, Min(k, |ranked|));
    if k >= |u.order| {
      assert TopColors(u, k) == ranked;
    }
  }

  /** The ranking of a grid's colours lists each of them once. */
  lemma RankingOfUsage(g: Grid)
    ensures var u := ColorUsage(g); var ranked := RankByCount(u.order, u);
      && IsRanking(ranked, u.order, u) && Distinct(ranked) && |ranked| == |u.order|
      && (forall c :: c in ranked <==> c in UsedColorSet(g))
  {
    var u := ColorUsage(g);
    UsageOfGrid(g);
    OrderDistinct(u, Cells(g));
    RankingOfTable(u);
  }

  /** The kept colours: the first `k` of the ranking (all of them when
      there are fewer), each a colour of the grid, none twice. */
  lemma TopColorsFacts(g: Grid, k: nat)
    ensures var u, top := ColorUsage(g), TopColors(ColorUsage(g), k);
      && |top| == Min(k, |u.order|)
      && Distinct(top)
      && (forall c :: c in top ==> c in UsedColorSet(g))
  {
    var u := ColorUsage(g);
    UsageOfGrid(g);
    OrderDistinct(u, Cells(g));
    TopOfTable(u, k);
  }

  /** Each kept colour is used at least as often as any colour dropped, a
      tie going to the colour whose first cell comes earlier in row-major order. */
  lemma TopColorsDominate(g: Grid, k: nat)
    ensures forall c :: c in TopColors(ColorUsage(g), k) ==> c in UsedColorSet(g)
    ensures var u, top := ColorUsage(g), TopColors(ColorUsage(g), k);
      forall c, d :: c in top && d in UsedColorSet(g) && d !in top ==>
        || UsageCount(u, c) > UsageCount(u, d)
        || (UsageCount(u, c) == UsageCount(u, d) && IndexOf(Cells(g), c) < IndexOf(Cells(g), d))
  {
    var u := ColorUsage(g);
    UsageOfGrid(g);
    RankingOfUsage(g);
    TopColorsFacts(g, k);
    var top := TopColors(u, k);
    forall c, d | c in top && d in UsedColorSet(g) && d !in top
      ensures || UsageCount(u, c) > UsageCount(u, d)
              || (UsageCount(u, c) == UsageCount(u, d) && IndexOf(Cells(g), c) < IndexOf(Cells(g), d))
    {
      KeptBeatsDropped(g, k, c, d);
    }
  }

  lemma KeptBeatsDropped(g: Grid, k: nat, c: string, d: string)
    requires var u := ColorUsage(g); IsRanking(RankByCount(u.order, u), u.order, u)
    requires var u := ColorUsage(g); forall c :: c in RankByCount(u.order, u) <==> c in UsedColorSet(g)
    requires c in TopColors(ColorUsage(g), k) && d in UsedColorSet(g) && d !in TopColors(ColorUsage(g), k)
    ensures var u := ColorUsage(g);
      || UsageCount(u, c) > UsageCount(u, d)
      || (UsageCount(u, c) == UsageCount(u, d) && IndexOf(Cells(g), c) < IndexOf(Cells(g), d))
  {
    var u := ColorUsage(g);
    UsageOfGrid(g);
    var ranked := RankByCount(u.order, u);
    var n := Min(k, |ranked|);
    var top := ranked[..n];
    var i := IndexOf(top, c);
    var j := IndexOf(ranked, d);
    assert ranked[i] == c;
    assert j >= n;
    assert RankedBefore(u.order, u, ranked[i], ranked[j]);
    FirstUseOrder(u, Cells(g), c, d);
  }

  /** Keys listed earlier were first used earlier. */
  lemma FirstUseOrder(u: UsageTable, cells: seq<string>, c: string, d: string)
    requires IsUsageOf(u, cells) && c in u.order && d in u.order
    ensures IndexOf(u.order, c) < IndexOf(u.order, d) ==> IndexOf(cells, c) < IndexOf(cells, d)
  {
    var ic, id := IndexOf(u.order, c), IndexOf(u.order, d);
    if ic < id {
      assert u.order[ic] == c && u.order[id] == d;
    }
  }

  // ---------------------------------------------------------------------
  // Repainting the cells

  /** `hexToRgb(tc)` for every kept colour `tc`. */
  function RgbsOf(top: seq<string>): (s: seq<Rgb>)
    ensures |s| == |top|
  {
    seq(|top|, i requires 0 <= i < |top| => HexToRgb(top[i]))
  }

  /** The colour a cell ends up with: empty and kept cells stay, any other
      takes the kept colour nearest to it, the first one on a tie. */
  function Remap(hex: string, top: seq<string>): string
    requires |top| > 0
  {
    if hex == "" then hex
    else if hex in top then hex
    else top[NearestIndex(HexToRgb(hex), RgbsOf(top))]
  }

  /** The `row.map(hex => …)` callback. The colours `hexToRgb(tc)` of the
      kept colours are the ones its `forEach` computes. */
  method RemapCell(hex: string, top: seq<string>) returns (out: string)
    requires |top| > 0
    ensures out == Remap(hex, top)
  {
    if hex == "" {
      return hex;
    }
    if hex in top {
      return hex;
    }
    var rgb := HexToRgb(hex);
    var cands := RgbsOf(top);
    out := NearestKept(rgb, top, cands);
  }

  /** The `forEach` over the kept colours `top`, whose colours are `cands`:
      the first one at the smallest distance from `rgb`. */
  method NearestKept(rgb: Rgb, top: seq<string>, cands: seq<Rgb>) returns (best: string)
    requires 0 < |top| == |cands|
    ensures best == top[NearestIndex(rgb, cands)]
  {
    best := top[0];
    var min: Bound := Infinity;
    ghost var m := 0;
    var i := 0;
    while i < |top|
      invariant i <= |top| && (m, min) == Scan(rgb, cands, i) && best == top[m]
    {
      var d := SqDist(rgb, cands[i]);
      if Below(d, min) {
        min := Finite(d);
        best := top[i];
        m := i;
      }
      i := i + 1;
    }
    ScanDone(rgb, cands);
  }

  /** `reduceColors(grid, targetCount)`. */
  function ReduceColors(g: Grid, k: int): (r: Grid)
    ensures |r| == |g| && forall i :: 0 <= i < |g| ==> |r[i]| == |g[i]|
  {
    if k <= 0 then g
    else
      var top := TopColors(ColorUsage(g), k);
      if |top| == 0 then g
      else seq(|g|, i requires 0 <= i < |g| => seq(|g[i]|, j requires 0 <= j < |g[i]| => Remap(g[i][j], top)))
  }

  /** The kept colours of a reduction by `k > 0`. */
  function Kept(g: Grid, k: int): seq<string>
    requires k > 0
  {
    TopColors(ColorUsage(g), k)
  }

  /** Cell by cell: an empty cell stays empty, a kept colour stays, and any
      other colour becomes the first kept colour nearest to it. */
  lemma ReduceCell(g: Grid, k: int, i: int, j: int)
    requires k > 0 && 0 <= i < |g| && 0 <= j < |g[i]|
    ensures var c, o, top := g[i][j], ReduceColors(g, k)[i][j], Kept(g, k);
      && (c == "" <==> o == "")
      && (c in top ==> o == c)
      && (c != "" && c !in top ==>
            o in top && exists m :: IsFirstNearest(HexToRgb(c), RgbsOf(top), m) && o == top[m])
  {
    var top := Kept(g, k);
    TopColorsFacts(g, k);
    var c := g[i][j];
    if c != "" {
      CellInCells(g, i, j);
      assert c in UsedColorSet(g);
      assert |top| > 0 by {
        assert |ColorUsage(g).order| > 0 by {
          UsageOfGrid(g);
          assert c in ColorUsage(g).counts;
        }
      }
      assert "" !in top;
      if c !in top {
        var m := NearestIndex(HexToRgb(c), RgbsOf(top));
        assert ReduceColors(g, k)[i][j] == top[m];
      }
    }
  }

  /** After a reduction by `k > 0` the grid uses only kept colours, so never
      more than `k` colours and none it did not use before. */
  lemma ReduceColorsUsesKept(g: Grid, k: int)
    requires k > 0
    ensures forall c :: c in UsedColorSet(ReduceColors(g, k)) ==> c in Kept(g, k)
    ensures UsedColorSet(ReduceColors(g, k)) <= UsedColorSet(g)
    ensures DistinctColorCount(ReduceColors(g, k)) <= k
    ensures DistinctColorCount(ReduceColors(g, k)) <= DistinctColorCount(g)
  {
    var r := ReduceColors(g, k);
    var top := Kept(g, k);
    var u := ColorUsage(g);
    UsageOfGrid(g);
    TopColorsFacts(g, k);
    forall c | c in UsedColorSet(r) ensures c in top {
      CellsMember(r, c);
      var i, j :| 0 <= i < |r| && 0 <= j < |r[i]| && r[i][j] == c;
      ReduceCell(g, k, i, j);
      if g[i][j] !in top {
        CellInCells(g, i, j);
      }
    }
    SubsetOfSeqCardinality(UsedColorSet(r), top);
    assert |top| <= |u.order|;
    assert DistinctColorCount(g) == |u.order| by {
      OrderDistinct(u, Cells(g));
      DistinctCardinality(u.order);
      assert (set x | x in u.order) == UsedColorSet(g);
    }
  }

  /** Reducing to at least as many colours as the grid uses, or to none,
      changes nothing. */
  lemma ReduceColorsIdentity(g: Grid, k: int)
    requires k <= 0 || k >= DistinctColorCount(g)
    ensures ReduceColors(g, k) == g
  {
    if k > 0 {
      var top := Kept(g, k);
      var u := ColorUsage(g);
      UsageOfGrid(g);
      TopColorsFacts(g, k);
      if |top| > 0 {
        var r := ReduceColors(g, k);
        forall i, j | 0 <= i < |g| && 0 <= j < |g[i]| ensures r[i][j] == g[i][j] {
          var c := g[i][j];
          if c != "" {
            CellInCells(g, i, j);
            KeptIsAllColors(g, k, c);
          }
        }
        assert forall i | 0 <= i < |g| :: r[i] == g[i];
      }
    }
  }

  /** With `k` at least the number of colours, every colour is kept. */
  lemma KeptIsAllColors(g: Grid, k: int, c: string)
    requires k > 0 && k >= DistinctColorCount(g)
    requires c in UsedColorSet(g)
    ensures c in Kept(g, k)
  {
    var u := ColorUsage(g);
    UsageOfGrid(g);
    OrderDistinct(u, Cells(g));
    TopOfTable(u, k);
    assert c in u.order;
  }

  /** Reducing twice by the same count is reducing once. */
  lemma ReduceColorsIdempotent(g: Grid, k: int)
    ensures ReduceColors(ReduceColors(g, k), k) == ReduceColors(g, k)
  {
    if k > 0 {
      ReduceColorsUsesKept(g, k);
      ReduceColorsIdentity(ReduceColors(g, k), k);
    }
  }
}
