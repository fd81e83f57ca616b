/**
 * Day 8, treetop tree house: a map of tree heights, as wide as its first row. Part one
 * counts the trees visible from outside the map, part two finds the best
 * scenic score, the product of the four viewing distances.
 */
module TreetopTreeHouse {

  /** `Tree::from`: a digit character is the tree of that height; anything else is `unreachable!()`. */
  function TreeFromChar(c: char): (h: nat)
    requires '0' <= c <= '9'
    ensures h < 10
    ensures c == (h + '0' as int) as char
  {
    c as int - '0' as int
  }

  /** Different digits are different heights, and a taller digit a taller tree. */
  lemma TreeFromCharMonotone(c: char, d: char)
    requires '0' <= c <= '9' && '0' <= d <= '9'
    ensures c < d <==> TreeFromChar(c) < TreeFromChar(d)
  {
  }

  /** `Map`: the rows of trees, `trees[y][x]`, with the width taken from the first row. */
  datatype Map = Map(width: nat, height: nat, trees: seq<seq<nat>>)

  /**
   * Every row at least as long as the first: the indexing `trees[y][x]`
   * stays in bounds for `x < width`. Longer rows are allowed; nothing past
   * `width` is ever read.
   */
  predicate RowsSpanWidth(m: Map)
  {
    && m.height == |m.trees| && m.height > 0
    && forall y :: 0 <= y < m.height ==> |m.trees[y]| >= m.width
  }

  /** `Map::new`: `trees[0]` requires a first row. */
  function NewMap(trees: seq<seq<nat>>): (m: Map)
    requires |trees| > 0
    requires forall y :: 0 <= y < |trees| ==> |trees[y]| >= |trees[0]|
    ensures RowsSpanWidth(m) && m.trees == trees
    ensures m.width == |trees[0]| && m.height == |trees|
  {
    Map(|trees[0]|, |trees|, trees)
  }

  /** `contains_pos`, on the signed positions `Line` produces. */
  predicate Contains(m: Map, x: int, y: int)
  {
    0 <= x < m.width && 0 <= y < m.height
  }

  /** `Index<&(usize, usize)>`: the tree at column `x` of row `y`. */
  function Height(m: Map, x: int, y: int): nat
    requires RowsSpanWidth(m) && Contains(m, x, y)
  {
    m.trees[y][x]
  }

  /** `perimeter`. `width - 2` is a `usize` subtraction. */
  function Perimeter(m: Map): (p: nat)
    requires m.width >= 2
    ensures m.height >= 2 ==> p + (m.width - 2) * (m.height - 2) == m.width * m.height
  {
    m.height * 2 + (m.width - 2) * 2
  }

  // ---------------------------------------------------------------------------
  // Lines of sight
  // ---------------------------------------------------------------------------

  /** The four directions, in the order of `CARDINALS`: down, right, left, up. */
  datatype Dir = Down | Right | Left | Up

  const CARDINALS: seq<Dir> := [Down, Right, Left, Up]

  /** The `(dx, dy)` of a direction. */
  function Delta(d: Dir): (int, int)
  {
    match d
    case Down => (0, 1)
    case Right => (1, 0)
    case Left => (-1, 0)
    case Up => (0, -1)
  }

  /** The position `Line::next` reaches after `k` calls. */
  function At(x: int, y: int, d: Dir, k: nat): (int, int)
  {
    match d
    case Down => (x, y + k)
    case Right => (x + k, y)
    case Left => (x - k, y)
    case Up => (x, y - k)
  }

  /** `k` calls of `Line::next` move `k` times by the direction's `(dx, dy)`. */
  lemma AtSteps(x: int, y: int, d: Dir, k: nat)
    ensures At(x, y, d, k) == (x + k * Delta(d).0, y + k * Delta(d).1)
    ensures k > 0 ==> At(x, y, d, k) == (At(x, y, d, k - 1).0 + Delta(d).0, At(x, y, d, k - 1).1 + Delta(d).1)
  {
  }

  /** Number of trees between a position and the edge, looking in direction `d`. */
  function Reach(m: Map, x: nat, y: nat, d: Dir): nat
    requires Contains(m, x, y)
  {
    match d
    case Down => m.height - 1 - y
    case Right => m.width - 1 - x
    case Left => x
    case Up => y
  }

  /** The `k`-th position of a line of sight is on the map exactly up to the reach. */
  lemma AtContains(m: Map, x: nat, y: nat, d: Dir, k: nat)
    requires Contains(m, x, y)
    ensures var p := At(x, y, d, k); Contains(m, p.0, p.1) <==> k <= Reach(m, x, y, d)
  {
  }

  /**
   * Part one's line of sight, from the `k`-th position on: `take_while`
   * stops at the first position off the map (or the first `None` of
   * `Line::next`, once a coordinate is negative), and `all` asks every tree
   * met to be strictly shorter than the centre.
   */
  function AllShorter(m: Map, x: nat, y: nat, d: Dir, k: nat): (r: bool)
    requires RowsSpanWidth(m) && Contains(m, x, y) && k >= 1
    ensures r <==> forall j :: k <= j <= Reach(m, x, y, d) ==>
                     Height(m, At(x, y, d, j).0, At(x, y, d, j).1) < Height(m, x, y)
    decreases m.width + m.height - k
  {
    var p := At(x, y, d, k);
    AtContains(m, x, y, d, k);
    if p.0 < 0 || p.1 < 0 then true
    else if !Contains(m, p.0, p.1) then true
    else Height(m, p.0, p.1) < Height(m, x, y) && AllShorter(m, x, y, d, k + 1)
  }

  /** Every tree between the position and the edge in direction `d` is shorter than the one there. */
  predicate ClearView(m: Map, x: nat, y: nat, d: Dir)
    requires RowsSpanWidth(m) && Contains(m, x, y)
  {
    forall j :: 1 <= j <= Reach(m, x, y, d) ==>
      Height(m, At(x, y, d, j).0, At(x, y, d, j).1) < Height(m, x, y)
  }

  /**
   * A tree is visible when in some direction every tree up to the edge is
   * shorter (`CARDINALS` lists every direction, so `any` over it is `exists`).
   */
  function Visible(m: Map, x: nat, y: nat): (r: bool)
    requires RowsSpanWidth(m) && Contains(m, x, y)
    ensures r <==> exists d: Dir :: ClearView(m, x, y, d)
  {
    assert forall d: Dir :: AllShorter(m, x, y, d, 1) <==> ClearView(m, x, y, d);
    exists d: Dir :: AllShorter(m, x, y, d, 1)
  }

  /** Trees on the edge are always visible: nothing stands between them and the outside. */
  lemma BorderVisible(m: Map, x: nat, y: nat)
    requires RowsSpanWidth(m) && Contains(m, x, y)
    requires x == 0 || y == 0 || x == m.width - 1 || y == m.height - 1
    ensures Visible(m, x, y)
  {
    if y == m.height - 1 {
      assert AllShorter(m, x, y, Down, 1);
    } else if x == m.width - 1 {
      assert AllShorter(m, x, y, Right, 1);
    } else if x == 0 {
      assert AllShorter(m, x, y, Left, 1);
    } else {
      assert AllShorter(m, x, y, Up, 1);
    }
  }

  // ---------------------------------------------------------------------------
  // Part one
  // ---------------------------------------------------------------------------

  /** Number of visible trees in row `y` between columns `lo` (included) and `hi` (excluded). */
  function RowCount(m: Map, y: nat, lo: nat, hi: nat): (n: nat)
    requires RowsSpanWidth(m) && y < m.height && lo <= hi <= m.width
    ensures n <= hi - lo
    decreases hi - lo
  {
    if lo == hi then 0 else (if Visible(m, lo, y) then 1 else 0) + RowCount(m, y, lo + 1, hi)
  }

  /** Number of visible trees in rows `ylo..yhi`, columns `lo..hi`. */
  function GridCount(m: Map, ylo: nat, yhi: nat, lo: nat, hi: nat): (n: nat)
    requires RowsSpanWidth(m) && yhi <= m.height && lo <= hi <= m.width
    ensures ylo >= yhi ==> n == 0
    ensures ylo < yhi ==> n <= (yhi - ylo) * (hi - lo)
    decreases yhi - ylo
  {
    if ylo >= yhi then 0
    else
      var n := RowCount(m, ylo, lo, hi) + GridCount(m, ylo + 1, yhi, lo, hi);
      assert (yhi - ylo) * (hi - lo) == (hi - lo) + (yhi - (ylo + 1)) * (hi - lo);
      n
  }

  /** The columns `lo..hi` of row `y` that hold a visible tree. */
  function VisibleColumns(m: Map, y: nat, lo: nat, hi: nat): set<nat>
    requires RowsSpanWidth(m) && y < m.height && hi <= m.width
  {
    set x: nat | lo <= x < hi && Visible(m, x, y)
  }

  /** The positions of visible trees in rows `ylo..yhi`, columns `lo..hi`. */
  function VisibleIn(m: Map, ylo: nat, yhi: nat, lo: nat, hi: nat): set<(nat, nat)>
    requires RowsSpanWidth(m) && yhi <= m.height && hi <= m.width
  {
    set x: nat, y: nat | ylo <= y < yhi && lo <= x < hi && Visible(m, x, y) :: (x, y)
  }

  /** A row counts the visible trees between its two columns. */
  lemma {:induction false} RowCountCounts(m: Map, y: nat, lo: nat, hi: nat)
    requires RowsSpanWidth(m) && y < m.height && lo <= hi <= m.width
    ensures RowCount(m, y, lo, hi) == |VisibleColumns(m, y, lo, hi)|
    decreases hi - lo
  {
    var all := VisibleColumns(m, y, lo, hi);
    if lo == hi {
      assert all == {};
    } else {
      var rest := VisibleColumns(m, y, lo + 1, hi);
      RowCountCounts(m, y, lo + 1, hi);
      assert forall x :: x in all <==> (x == lo && Visible(m, lo, y)) || x in rest;
      if Visible(m, lo, y) {
        assert all == rest + {lo};
      } else {
        assert all == rest;
      }
    }
  }

  /** Every element of `s` paired with `y`. */
  function PairedWith(s: set<nat>, y: nat): set<(nat, nat)>
  {
    set x | x in s :: (x, y)
  }

  /** Pairing every element of a set with the same second component keeps its size. */
  lemma {:induction false} PairWithCard(s: set<nat>, y: nat)
    ensures |PairedWith(s, y)| == |s|
    decreases |s|
  {
    if s != {} {
      var e :| e in s;
      PairWithCard(s - {e}, y);
      assert PairedWith(s, y) == PairedWith(s - {e}, y) + {(e, y)};
      assert s == (s - {e}) + {e};
    }
  }

  /** The visible positions of one row are its visible columns, each paired with the row. */
  lemma RowOfPositions(m: Map, y: nat, lo: nat, hi: nat)
    requires RowsSpanWidth(m) && y < m.height && hi <= m.width
    ensures |VisibleIn(m, y, y + 1, lo, hi)| == |VisibleColumns(m, y, lo, hi)|
  {
    PairWithCard(VisibleColumns(m, y, lo, hi), y);
    assert VisibleIn(m, y, y + 1, lo, hi) == PairedWith(VisibleColumns(m, y, lo, hi), y);
  }

  /** A block of rows counts the visible trees in it. */
  lemma {:induction false} GridCountCounts(m: Map, ylo: nat, yhi: nat, lo: nat, hi: nat)
    requires RowsSpanWidth(m) && yhi <= m.height && lo <= hi <= m.width
    ensures GridCount(m, ylo, yhi, lo, hi) == |VisibleIn(m, ylo, yhi, lo, hi)|
    decreases yhi - ylo
  {
    if ylo >= yhi {
      assert VisibleIn(m, ylo, yhi, lo, hi) == {};
    } else {
      RowCountCounts(m, ylo, lo, hi);
      RowOfPositions(m, ylo, lo, hi);
      GridCountCounts(m, ylo + 1, yhi, lo, hi);
      FirstRowSplit(m, ylo, yhi, lo, hi);
    }
  }

  /**
   * The visible positions of a block of rows: those of its first row, then,
   * apart from them, those of the others.
   */
  lemma FirstRowSplit(m: Map, ylo: nat, yhi: nat, lo: nat, hi: nat)
    requires RowsSpanWidth(m) && ylo < yhi <= m.height && hi <= m.width
    ensures |VisibleIn(m, ylo, yhi, lo, hi)| == |VisibleIn(m, ylo, ylo + 1, lo, hi)| + |VisibleIn(m, ylo + 1, yhi, lo, hi)|
  {
    var row, rest := VisibleIn(m, ylo, ylo + 1, lo, hi), VisibleIn(m, ylo + 1, yhi, lo, hi);
    assert VisibleIn(m, ylo, yhi, lo, hi) == row + rest;
    assert row * rest == {};
  }

  /**
   * `part1` as written: the visible trees among the interior ones, plus
   * `perimeter()` for the edge. `1..width - 1` and `perimeter` subtract
   * from `width` as `usize`, so the map must be at least two trees wide.
   */
  function Part1AsWritten(m: Map): (n: nat)
    requires RowsSpanWidth(m) && m.width >= 2
    ensures m.height == 1 ==> n == 2 * m.width - 2
  {
    GridCount(m, 1, m.height - 1, 1, m.width - 1) + Perimeter(m)
  }

  /** The number of trees visible from outside the map, counted over every tree. */
  function Part1(m: Map): (n: nat)
    requires RowsSpanWidth(m)
    ensures n == |VisibleIn(m, 0, m.height, 0, m.width)|
    ensures n <= m.width * m.height
  {
    GridCountCounts(m, 0, m.height, 0, m.width);
    GridCount(m, 0, m.height, 0, m.width)
  }

  /** A row whose trees are all visible counts every one of them. */
  lemma {:induction false} RowAllVisible(m: Map, y: nat, lo: nat, hi: nat)
    requires RowsSpanWidth(m) && y < m.height && lo <= hi <= m.width
    requires y == 0 || y == m.height - 1
    ensures RowCount(m, y, lo, hi) == hi - lo
    decreases hi - lo
  {
    if lo < hi {
      EdgeRowStep(m, y, lo, hi);
      RowAllVisible(m, y, lo + 1, hi);
    }
  }

  /** On the top or bottom row, the first tree adds one to the rest of the row. */
  lemma EdgeRowStep(m: Map, y: nat, lo: nat, hi: nat)
    requires RowsSpanWidth(m) && y < m.height && lo < hi <= m.width
    requires y == 0 || y == m.height - 1
    ensures RowCount(m, y, lo, hi) == 1 + RowCount(m, y, lo + 1, hi)
  {
    BorderVisible(m, lo, y);
  }

  /** A row split at `mid` counts as its two parts. */
  lemma {:induction false} RowCountSplit(m: Map, y: nat, lo: nat, mid: nat, hi: nat)
    requires RowsSpanWidth(m) && y < m.height && lo <= mid <= hi <= m.width
    ensures RowCount(m, y, lo, hi) == RowCount(m, y, lo, mid) + RowCount(m, y, mid, hi)
    decreases mid - lo
  {
    if lo < mid {
      RowCountSplit(m, y, lo + 1, mid, hi);
    }
  }

  /** A full row counts its two edge trees plus its visible interior trees. */
  lemma FullRow(m: Map, y: nat)
    requires RowsSpanWidth(m) && y < m.height && m.width >= 2
    ensures RowCount(m, y, 0, m.width) == 2 + RowCount(m, y, 1, m.width - 1)
  {
    var w := m.width;
    BorderVisible(m, 0, y);
    BorderVisible(m, w - 1, y);
    RowCountSplit(m, y, 1, w - 1, w);
    assert RowCount(m, y, w - 1, w) == 1;
  }

  /** The middle rows count two edge trees each plus their visible interior trees. */
  lemma {:induction false} MiddleRows(m: Map, ylo: nat, yhi: nat)
    requires RowsSpanWidth(m) && ylo <= yhi <= m.height && m.width >= 2
    ensures GridCount(m, ylo, yhi, 0, m.width) == 2 * (yhi - ylo) + GridCount(m, ylo, yhi, 1, m.width - 1)
    decreases yhi - ylo
  {
    if ylo < yhi {
      FullRow(m, ylo);
      MiddleRows(m, ylo + 1, yhi);
    }
  }

  /** The rows `ylo..yhi` counted as the rows `ylo..yhi - 1`, then the last. */
  lemma {:induction false} GridCountSnoc(m: Map, ylo: nat, yhi: nat, lo: nat, hi: nat)
    requires RowsSpanWidth(m) && ylo < yhi <= m.height && lo <= hi <= m.width
    ensures GridCount(m, ylo, yhi, lo, hi) == GridCount(m, ylo, yhi - 1, lo, hi) + RowCount(m, yhi - 1, lo, hi)
    decreases yhi - ylo
  {
    if ylo < yhi - 1 {
      GridCountSnoc(m, ylo + 1, yhi, lo, hi);
    }
  }

  /**
   * On a map at least two trees wide and two tall, adding the perimeter to
   * the interior count counts every visible tree once.
   */
  lemma Part1AsWrittenCorrect(m: Map)
    requires RowsSpanWidth(m) && m.width >= 2 && m.height >= 2
    ensures Part1AsWritten(m) == Part1(m)
  {
    var w, h := m.width, m.height;
    var interior := GridCount(m, 1, h - 1, 1, w - 1);
    assert Perimeter(m) == 2 * h + 2 * w - 4;
    assert Part1(m) == RowCount(m, 0, 0, w) + GridCount(m, 1, h, 0, w);
    assert RowCount(m, 0, 0, w) == w by {
      RowAllVisible(m, 0, 0, w);
    }
    assert GridCount(m, 1, h, 0, w) == GridCount(m, 1, h - 1, 0, w) + w by {
      GridCountSnoc(m, 1, h, 0, w);
      RowAllVisible(m, h - 1, 0, w);
    }
    assert GridCount(m, 1, h - 1, 0, w) == 2 * (h - 2) + interior by {
      MiddleRows(m, 1, h - 1);
    }
  }

  /**
   * On a single row of three trees, `perimeter()` is 4 although the map
   * has only three trees, all of them visible.
   */
  lemma Part1SingleRowExample()
    ensures Part1AsWritten(NewMap([[0, 0, 0]])) == 4
    ensures Part1(NewMap([[0, 0, 0]])) == 3
  {
    var m := NewMap([[0, 0, 0]]);
    assert GridCount(m, 1, 1, 1, 2) == 0;
    RowAllVisible(m, 0, 0, 3);
    assert GridCount(m, 1, 1, 0, 3) == 0;
  }

  // ---------------------------------------------------------------------------
  // Part two
  // ---------------------------------------------------------------------------

  /**
   * The `fold_while` of part two from the `k`-th position on, `seen` trees
   * counted so far: a tree shorter than the centre is counted and the walk
   * goes on, the first tree at least as tall is counted and ends it, and
   * leaving the map ends it.
   */
  function ViewFrom(m: Map, x: nat, y: nat, d: Dir, k: nat, seen: nat): (r: nat)
    requires RowsSpanWidth(m) && Contains(m, x, y) && k >= 1 && seen == k - 1
    requires k - 1 <= Reach(m, x, y, d)
    ensures k - 1 <= r <= Reach(m, x, y, d)
    ensures forall j :: k <= j < r ==> Height(m, At(x, y, d, j).0, At(x, y, d, j).1) < Height(m, x, y)
    ensures r < Reach(m, x, y, d) ==>
              r >= k && Height(m, At(x, y, d, r).0, At(x, y, d, r).1) >= Height(m, x, y)
    decreases m.width + m.height - k
  {
    var p := At(x, y, d, k);
    AtContains(m, x, y, d, k);
    if p.0 < 0 || p.1 < 0 then seen
    else if !Contains(m, p.0, p.1) then seen
    else if Height(m, p.0, p.1) < Height(m, x, y) then ViewFrom(m, x, y, d, k + 1, seen + 1)
    else seen + 1
  }

  /**
   * The viewing distance in direction `d`: at most the trees up to the edge,
   * all but the last shorter than the centre, and the last one at least as
   * tall unless the view reaches the edge.
   */
  function ViewingDistance(m: Map, x: nat, y: nat, d: Dir): (r: nat)
    requires RowsSpanWidth(m) && Contains(m, x, y)
    ensures r <= Reach(m, x, y, d)
    ensures r == 0 <==> Reach(m, x, y, d) == 0
    ensures forall j :: 1 <= j < r ==> Height(m, At(x, y, d, j).0, At(x, y, d, j).1) < Height(m, x, y)
    ensures r < Reach(m, x, y, d) ==> Height(m, At(x, y, d, r).0, At(x, y, d, r).1) >= Height(m, x, y)
  {
    ViewFrom(m, x, y, d, 1, 0)
  }

  /** The `product` over `CARDINALS` of the viewing distances. */
  function ScenicScore(m: Map, x: nat, y: nat): (s: nat)
    requires RowsSpanWidth(m) && Contains(m, x, y)
    ensures s == 0 <==> x == 0 || y == 0 || x == m.width - 1 || y == m.height - 1
  {
    EdgeDistances(m, x, y);
    Product4(ViewingDistance(m, x, y, Down), ViewingDistance(m, x, y, Right),
             ViewingDistance(m, x, y, Left), ViewingDistance(m, x, y, Up))
  }

  /** The viewing distance is zero exactly towards the edge the tree stands on. */
  lemma EdgeDistances(m: Map, x: nat, y: nat)
    requires RowsSpanWidth(m) && Contains(m, x, y)
    ensures ViewingDistance(m, x, y, Down) == 0 <==> y == m.height - 1
    ensures ViewingDistance(m, x, y, Right) == 0 <==> x == m.width - 1
    ensures ViewingDistance(m, x, y, Left) == 0 <==> x == 0
    ensures ViewingDistance(m, x, y, Up) == 0 <==> y == 0
  {
  }

  /** A product of four naturals, zero exactly when a factor is. */
  function Product4(a: nat, b: nat, c: nat, d: nat): (p: nat)
    ensures p == 0 <==> a == 0 || b == 0 || c == 0 || d == 0
  {
    var ab := Mul(a, b);
    var abc := Mul(ab, c);
    Mul(abc, d)
  }

  /** A product of two naturals, zero exactly when a factor is. */
  function Mul(a: nat, b: nat): (p: nat)
    ensures p == 0 <==> a == 0 || b == 0
  {
    if a > 0 && b > 0 then
      assert a * b >= b by {
        assert a * b == (a - 1) * b + b;
      }
      a * b
    else 0
  }

  /** The position of a largest element (the first one, scanning from the back). */
  function ArgMax(s: seq<nat>): (i: nat)
    requires |s| > 0
    ensures i < |s| && forall j :: 0 <= j < |s| ==> s[j] <= s[i]
  {
    if |s| == 1 then 0
    else
      var k := ArgMax(s[1..]) + 1;
      if s[0] >= s[k] then 0 else k
  }

  /** A largest entry of a non-empty grid whose rows all have the same length, with its position. */
  function GridMax(grid: seq<seq<nat>>, width: nat): (r: (nat, nat, nat))
    requires |grid| > 0 && width > 0
    requires forall y :: 0 <= y < |grid| ==> |grid[y]| == width
    ensures r.1 < width && r.2 < |grid| && r.0 == grid[r.2][r.1]
    ensures forall x, y :: 0 <= x < width && 0 <= y < |grid| ==> grid[y][x] <= r.0
  {
    var rowBest := seq(|grid|, y requires 0 <= y < |grid| => grid[y][ArgMax(grid[y])]);
    var y := ArgMax(rowBest);
    var x := ArgMax(grid[y]);
    forall a, b | 0 <= a < width && 0 <= b < |grid|
      ensures grid[b][a] <= rowBest[y]
    {
      assert grid[b][a] <= rowBest[b];
    }
    (rowBest[y], x, y)
  }

  /** The scenic score of every tree, row by row. */
  function Scores(m: Map): (grid: seq<seq<nat>>)
    requires RowsSpanWidth(m)
    ensures |grid| == m.height
    ensures forall y :: 0 <= y < m.height ==> |grid[y]| == m.width
    ensures forall x, y :: Contains(m, x, y) ==> grid[y][x] == ScenicScore(m, x, y)
  {
    seq(m.height, y requires 0 <= y < m.height =>
      seq(m.width, x requires 0 <= x < m.width => ScenicScore(m, x, y)))
  }

  /** `part2`: the highest scenic score of any tree. The map has a tree, so `max()` has a value. */
  function Part2(m: Map): (best: nat)
    requires RowsSpanWidth(m) && m.width > 0
    ensures exists x, y :: Contains(m, x, y) && best == ScenicScore(m, x, y)
    ensures forall x, y :: Contains(m, x, y) ==> ScenicScore(m, x, y) <= best
  {
    var grid := Scores(m);
    var r := GridMax(grid, m.width);
    ScoresBound(m, grid, r.0);
    assert Contains(m, r.1, r.2) && r.0 == ScenicScore(m, r.1, r.2);
    r.0
  }

  /** A bound on every entry of the score grid bounds every tree's scenic score. */
  lemma ScoresBound(m: Map, grid: seq<seq<nat>>, bound: nat)
    requires RowsSpanWidth(m)
    requires |grid| == m.height && forall y :: 0 <= y < m.height ==> |grid[y]| == m.width
    requires forall x, y :: Contains(m, x, y) ==> grid[y][x] == ScenicScore(m, x, y)
    requires forall x, y :: 0 <= x < m.width && 0 <= y < |grid| ==> grid[y][x] <= bound
    ensures forall x, y :: Contains(m, x, y) ==> ScenicScore(m, x, y) <= bound
  {
    forall x, y | Contains(m, x, y)
      ensures ScenicScore(m, x, y) <= bound
    {
      assert grid[y][x] == ScenicScore(m, x, y);
    }
  }
}
