/** `getColorUsage` of src/utils.js: how often each colour occurs in a grid.
    The JavaScript result is a plain object; its keys are colour strings,
    which `Object.entries` and `Object.keys` list in the order they were first
    added. The model keeps that order next to the counts. */
module Usage {
  import opened Common

  /** A pattern: rows of cells, each cell a colour string or "" for an empty cell. */
  type Grid = seq<seq<string>>

  /** The counts object: a count per colour and the keys in insertion order. */
  datatype UsageTable = UsageTable(counts: map<string, nat>, order: seq<string>)

  /** The cells in the order the two nested `forEach` calls visit them: row by row. */
  function Cells(g: Grid): seq<string> {
    if g == [] then [] else Cells(g[..|g| - 1]) + g[|g| - 1]
  }

  /** `c` is a key, as `Object.keys` would list it. */
  predicate IsKey(u: UsageTable, c: string) {
    c in u.counts
  }

  /** `u` is the counts object of the cell visit `cells`: its keys are the
      non-empty cells, each counted as often as it occurs, listed in the order
      of their first occurrence. */
  ghost predicate IsUsageOf(u: UsageTable, cells: seq<string>) {
    KeysAreColors(u, cells) && CountsAreOccurrences(u, cells) && OrderListsKeys(u) && OrderedByFirstUse(u, cells)
  }

  ghost predicate KeysAreColors(u: UsageTable, cells: seq<string>) {
    forall c :: c in u.counts <==> c != "" && c in cells
  }

  ghost predicate CountsAreOccurrences(u: UsageTable, cells: seq<string>) {
    forall c :: c in u.counts ==> u.counts[c] == multiset(cells)[c]
  }

  ghost predicate OrderListsKeys(u: UsageTable) {
    forall c :: c in u.order <==> c in u.counts
  }

  ghost predicate OrderedByFirstUse(u: UsageTable, cells: seq<string>)
    requires OrderListsKeys(u) && KeysAreColors(u, cells)
  {
    forall i, j :: 0 <= i < j < |u.order| ==> IndexOf(cells, u.order[i]) < IndexOf(cells, u.order[j])
  }

  /** `if (!hex) return; counts[hex] = (counts[hex] || 0) + 1;` for one cell. */
  function Record(u: UsageTable, cell: string): UsageTable {
    if cell == "" then u
    else if cell in u.counts then u.(counts := u.counts[cell := u.counts[cell] + 1])
    else UsageTable(u.counts[cell := 1], u.order + [cell])
  }

  /** The counts after visiting `cells` in order, starting from `{}`. */
  function Tally(cells: seq<string>): UsageTable {
    if cells == [] then UsageTable(map[], [])
    else Record(Tally(cells[..|cells| - 1]), cells[|cells| - 1])
  }

  /** Counting cell by cell yields the counts object of the whole visit. */
  lemma {:induction false} TallyIsUsage(cells: seq<string>)
    ensures IsUsageOf(Tally(cells), cells)
  {
    if cells != [] {
      var init := cells[..|cells| - 1];
      assert cells == init + [cells[|cells| - 1]];
      TallyIsUsage(init);
      RecordKeepsUsage(Tally(init), init, cells[|cells| - 1]);
    }
  }

  /** Recording one more cell turns the counts of `cells` into those of `cells + [x]`. */
  lemma RecordKeepsUsage(u: UsageTable, cells: seq<string>, x: string)
    requires IsUsageOf(u, cells)
    ensures IsUsageOf(Record(u, x), cells + [x])
  {
    var s := cells + [x];
    var v := Record(u, x);
    assert KeysAreColors(v, s);
    assert CountsAreOccurrences(v, s) by {
      assert multiset(s) == multiset(cells) + multiset{x};
    }
    assert OrderListsKeys(v);
    RecordKeepsOrder(u, cells, x);
  }

  /** Recording a cell keeps the keys ordered by their first cell. */
  lemma RecordKeepsOrder(u: UsageTable, cells: seq<string>, x: string)
    requires KeysAreColors(u, cells) && OrderListsKeys(u) && OrderedByFirstUse(u, cells)
    requires KeysAreColors(Record(u, x), cells + [x]) && OrderListsKeys(Record(u, x))
    ensures OrderedByFirstUse(Record(u, x), cells + [x])
  {
    var v := Record(u, x);
    if x == "" || x in u.counts {
      assert v.order == u.order;
      forall i, j | 0 <= i < j < |v.order|
        ensures IndexOf(cells + [x], v.order[i]) < IndexOf(cells + [x], v.order[j])
      {
        OldKeyOrder(u, cells, x, i, j);
      }
    } else {
      assert v.order == u.order + [x];
      forall i, j | 0 <= i < j < |v.order|
        ensures IndexOf(cells + [x], v.order[i]) < IndexOf(cells + [x], v.order[j])
      {
        NewKeyOrder(u, cells, x, i, j);
      }
    }
  }

  /** Two keys already listed keep their first cells when a cell is added. */
  lemma OldKeyOrder(u: UsageTable, cells: seq<string>, x: string, i: int, j: int)
    requires KeysAreColors(u, cells) && OrderListsKeys(u) && OrderedByFirstUse(u, cells)
    requires 0 <= i < j < |u.order|
    ensures u.order[i] in cells && u.order[j] in cells
    ensures IndexOf(cells + [x], u.order[i]) < IndexOf(cells + [x], u.order[j])
  {
    assert u.order[i] in u.counts && u.order[j] in u.counts;
    IndexOfAppend(cells, x, u.order[i]);
    IndexOfAppend(cells, x, u.order[j]);
  }

  /** A new key goes after the keys already listed, and its first cell is
      the added one. */
  lemma NewKeyOrder(u: UsageTable, cells: seq<string>, x: string, i: int, j: int)
    requires KeysAreColors(u, cells) && OrderListsKeys(u) && OrderedByFirstUse(u, cells)
    requires x != "" && x !in u.counts && 0 <= i < j <= |u.order|
    ensures var o := u.order + [x]; o[i] in cells && IndexOf(cells + [x], o[i]) < IndexOf(cells + [x], o[j])
  {
    var o := u.order + [x];
    assert o[i] == u.order[i] && o[i] in u.counts;
    IndexOfAppend(cells, x, o[i]);
    if j < |u.order| {
      OldKeyOrder(u, cells, x, i, j);
    } else {
      assert o[j] == x && x !in cells;
      IndexOfAppendNew(cells, x);
    }
  }

  /** Visiting one more cell is recording it. */
  lemma TallySnoc(cells: seq<string>, x: string)
    ensures Tally(cells + [x]) == Record(Tally(cells), x)
  {
    assert (cells + [x])[..|cells|] == cells;
  }

  /** One more row appends its cells. */
  lemma CellsSnoc(g: Grid, y: nat)
    requires y < |g|
    ensures Cells(g[..y + 1]) == Cells(g[..y]) + g[y]
  {
    assert g[..y + 1][..y] == g[..y];
  }

  /** What `getColorUsage(grid)` returns. */
  function ColorUsage(g: Grid): UsageTable {
    Tally(Cells(g))
  }

  /** `getColorUsage(grid)` is the counts object of the grid's cells. */
  lemma UsageOfGrid(g: Grid)
    ensures IsUsageOf(ColorUsage(g), Cells(g))
  {
    TallyIsUsage(Cells(g));
  }

  /** `getColorUsage`: the two nested `forEach` loops over the grid. */
  method GetColorUsage(g: Grid) returns (u: UsageTable)
    ensures u == ColorUsage(g)
  {
    var counts: map<string, nat> := map[];
    var order: seq<string> := [];
    var y := 0;
    while y < |g|
      invariant 0 <= y <= |g|
      invariant UsageTable(counts, order) == Tally(Cells(g[..y]))
    {
      var row := g[y];
      var x := 0;
      assert Cells(g[..y]) + row[..x] == Cells(g[..y]);
      while x < |row|
        invariant 0 <= x <= |row|
        invariant UsageTable(counts, order) == Tally(Cells(g[..y]) + row[..x])
      {
        var hex := row[x];
        ghost var before := Cells(g[..y]) + row[..x];
        assert Cells(g[..y]) + row[..x + 1] == before + [hex];
        TallySnoc(before, hex);
        if hex != "" {
          if hex in counts {
            counts := counts[hex := counts[hex] + 1];
          } else {
            counts := counts[hex := 1];
            order := order + [hex];
          }
        }
        x := x + 1;
      }
      CellsSnoc(g, y);
      assert row[..x] == row;
      y := y + 1;
    }
    assert g[..y] == g;
    u := UsageTable(counts, order);
  }

  /** Every cell of the grid is among the visited cells. */
  lemma {:induction false} CellInCells(g: Grid, i: int, j: int)
    requires 0 <= i < |g| && 0 <= j < |g[i]|
    ensures g[i][j] in Cells(g)
  {
    var init := g[..|g| - 1];
    if i < |g| - 1 {
      assert init[i] == g[i];
      CellInCells(init, i, j);
    } else {
      assert Cells(g) == Cells(init) + g[i];
      assert Cells(g)[|Cells(init)| + j] == g[i][j];
    }
  }

  /** Every visited cell is a cell of the grid. */
  lemma {:induction false} CellsMember(g: Grid, c: string)
    requires c in Cells(g)
    ensures exists i, j :: 0 <= i < |g| && 0 <= j < |g[i]| && g[i][j] == c
  {
    var init := g[..|g| - 1];
    if c in Cells(init) {
      CellsMember(init, c);
      var i, j :| 0 <= i < |init| && 0 <= j < |init[i]| && init[i][j] == c;
      assert g[i] == init[i];
    } else {
      var k := IndexOf(g[|g| - 1], c);
      assert g[|g| - 1][k] == c;
    }
  }

  /** How often `c` was counted; 0 for a colour that is not a key. */
  function UsageCount(u: UsageTable, c: string): nat {
    if c in u.counts then u.counts[c] else 0
  }

  /** A colour's count is its number of cells, and 0 for the empty cell. */
  lemma UsageCountIsOccurrences(g: Grid, c: string)
    ensures UsageCount(ColorUsage(g), c) == if c == "" then 0 else multiset(Cells(g))[c]
  {
    var u := ColorUsage(g);
    UsageOfGrid(g);
    if c != "" && c !in u.counts {
      assert c !in Cells(g);
    }
  }

  /** No colour is listed twice among the keys. */
  lemma OrderDistinct(u: UsageTable, cells: seq<string>)
    requires IsUsageOf(u, cells)
    ensures Distinct(u.order)
  {
    forall i, j | 0 <= i < j < |u.order| ensures u.order[i] != u.order[j] {
      assert IndexOf(cells, u.order[i]) < IndexOf(cells, u.order[j]);
    }
  }

  /** The colours that occur in the grid. */
  function UsedColorSet(g: Grid): (s: set<string>)
    ensures forall c :: c in s <==> c != "" && c in Cells(g)
  {
    set c | c in Cells(g) && c != ""
  }

  /** `Object.keys(getColorUsage(grid)).length`: the number of distinct colours. */
  function DistinctColorCount(g: Grid): (n: nat)
    ensures n == |UsedColorSet(g)|
  {
    var u := ColorUsage(g);
    UsageOfGrid(g);
    OrderDistinct(u, Cells(g));
    DistinctCardinality(u.order);
    assert (set x | x in u.order) == UsedColorSet(g);
    |u.order|
  }

  /** Every key was counted at least once, and the empty cell is never a key. */
  lemma CountsPositive(g: Grid)
    ensures "" !in ColorUsage(g).counts
    ensures forall c :: c in ColorUsage(g).counts ==> ColorUsage(g).counts[c] >= 1
  {
    var u := ColorUsage(g);
    UsageOfGrid(g);
    forall c | c in u.counts ensures u.counts[c] >= 1 {
      assert c in Cells(g);
      assert c in multiset(Cells(g));
    }
  }

  /** The number of painted (non-empty) cells in a visit. */
  function PaintedCount(cells: seq<string>): nat {
    if cells == [] then 0
    else PaintedCount(cells[..|cells| - 1]) + (if cells[|cells| - 1] == "" then 0 else 1)
  }

  /** The counts of `keys`, added up. */
  function SumCounts(m: map<string, nat>, keys: seq<string>): nat
    requires forall k :: k in keys ==> k in m
  {
    if keys == [] then 0 else SumCounts(m, keys[..|keys| - 1]) + m[keys[|keys| - 1]]
  }

  /** Counts of keys other than `x` do not see `x` change. */
  lemma {:induction false} SumCountsUnaffected(m: map<string, nat>, keys: seq<string>, x: string, v: nat)
    requires forall k :: k in keys ==> k in m
    requires x !in keys
    ensures SumCounts(m[x := v], keys) == SumCounts(m, keys)
  {
    if keys != [] {
      var init := keys[..|keys| - 1];
      assert forall k :: k in init ==> k in keys;
      SumCountsUnaffected(m, init, x, v);
    }
  }

  /** Adding one to the count of a key listed once adds one to the sum. */
  lemma {:induction false} SumCountsBump(m: map<string, nat>, keys: seq<string>, x: string)
    requires forall k :: k in keys ==> k in m
    requires Distinct(keys) && x in keys
    ensures SumCounts(m[x := m[x] + 1], keys) == SumCounts(m, keys) + 1
  {
    var init := keys[..|keys| - 1];
    var last := keys[|keys| - 1];
    assert forall k :: k in init ==> k in keys;
    if last == x {
      assert x !in init by {
        forall i | 0 <= i < |init| ensures init[i] != x {
          assert init[i] == keys[i];
        }
      }
      SumCountsUnaffected(m, init, x, m[x] + 1);
    } else {
      assert x in init by {
        var i := IndexOf(keys, x);
        assert i < |keys| - 1 && init[i] == x;
      }
      assert Distinct(init) by {
        forall i, j | 0 <= i < j < |init| ensures init[i] != init[j] {
          assert init[i] == keys[i] && init[j] == keys[j];
        }
      }
      SumCountsBump(m, init, x);
    }
  }

  /** The keys of a visit's counts, each listed exactly once. */
  lemma TallyKeysListed(cells: seq<string>)
    ensures var u := Tally(cells); (forall k :: k in u.order <==> k in u.counts) && Distinct(u.order)
  {
    TallyIsUsage(cells);
    OrderDistinct(Tally(cells), cells);
  }

  /** The counts of a visit add up to its number of painted cells. */
  lemma {:induction false} TallyTotal(cells: seq<string>)
    ensures var u := Tally(cells);
      (forall k :: k in u.order ==> k in u.counts) && SumCounts(u.counts, u.order) == PaintedCount(cells)
  {
    if cells != [] {
      var init := cells[..|cells| - 1];
      TallyTotal(init);
      TallyKeysListed(init);
      RecordTotal(Tally(init), cells[|cells| - 1]);
    }
  }

  /** Recording a painted cell adds one to the sum of the counts; an empty
      cell adds nothing. */
  lemma RecordTotal(u: UsageTable, x: string)
    requires (forall k :: k in u.order <==> k in u.counts) && Distinct(u.order)
    ensures var v := Record(u, x);
      && (forall k :: k in v.order ==> k in v.counts)
      && SumCounts(v.counts, v.order) == SumCounts(u.counts, u.order) + (if x == "" then 0 else 1)
  {
    if x != "" {
      if x in u.counts {
        SumCountsBump(u.counts, u.order, x);
      } else {
        var o := u.order + [x];
        assert o[..|o| - 1] == u.order;
        SumCountsUnaffected(u.counts, u.order, x, 1);
      }
    }
  }

  /** The values of `getColorUsage(grid)` add up to the number of painted cells. */
  lemma UsageTotal(g: Grid)
    ensures var u := ColorUsage(g);
      (forall k :: k in u.order ==> k in u.counts) && SumCounts(u.counts, u.order) == PaintedCount(Cells(g))
  {
    TallyTotal(Cells(g));
  }
}
