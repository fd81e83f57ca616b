/**
 * Day 12, hill climbing: the input is a grid of heights `a` to `z`, with
 * `S` marking the start (height of `a` minus one) and `E` the goal (height
 * of `z` plus one). The search runs backward from the goal, over the four
 * cardinal neighbours, along steps a forward climber could take.
 *
 * The breadth-first search itself is a foreign routine and is not part of
 * this model: decoding, indexing, neighbour generation and the edge
 * predicate are.
 */
module HillClimbing {
  import opened Common
  import opened Numbers

  /** A grid position `(row, col)`. */
  type Pos = (nat, nat)

  /** `START_POS` and `END_POS`, fixed for the author's input. */
  const START_POS: Pos := (20, 0)
  const END_POS: Pos := (20, 43)

  /** The decoded heights of `S` and `E`. */
  const START := -1
  const END := 26

  /** `HeatMap`: the heights, row after row, `cols` to a row. */
  datatype HeatMap = HeatMap(rows: nat, cols: nat, values: seq<int>)

  predicate IsLower(c: char)
  {
    'a' <= c <= 'z'
  }

  /**
   * The height of one character: `S` is -1, `E` is 26 and `a` to `z` are 0
   * to 25. `None` is the `unreachable!` panic on any other character.
   */
  function Decode(c: char): (r: Option<int>)
    ensures r.Some? <==> c == 'S' || c == 'E' || IsLower(c)
    ensures r.Some? ==> START <= r.value <= END
    ensures IsLower(c) ==> r == Some(c as int - 'a' as int)
  {
    if c == 'S' then Some(START)
    else if c == 'E' then Some(END)
    else if IsLower(c) then Some(c as int - 'a' as int)
    else None
  }

  /** The letter for a height from 0 to 25. */
  function Letter(h: int): (c: char)
    requires 0 <= h < 26
    ensures IsLower(c)
  {
    ('a' as int + h) as char
  }

  /** Every height has its letter, and every letter its height. */
  lemma DecodeLetter(h: int, c: char)
    ensures 0 <= h < 26 ==> Decode(Letter(h)) == Some(h)
    ensures IsLower(c) ==> Letter(Decode(c).value) == c
  {
  }

  /** Only `S` and `E` decode outside `0..=25`, and to different values. */
  lemma DecodeMarkers(c: char)
    requires Decode(c).Some?
    ensures Decode(c) == Some(START) <==> c == 'S'
    ensures Decode(c) == Some(END) <==> c == 'E'
  {
  }

  /**
   * The characters `lines().flat_map(str::chars)` yields: every character
   * except the line endings, which are `\n` and `\r\n`.
   */
  function LineChars(s: string): (r: string)
    ensures |r| <= |s|
    ensures '\n' !in r
    decreases |s|
  {
    if |s| == 0 then []
    else if s[0] == '\n' then LineChars(s[1..])
    else if s[0] == '\r' && |s| > 1 && s[1] == '\n' then LineChars(s[2..])
    else [s[0]] + LineChars(s[1..])
  }

  /** Lines joined by `\n` give back their characters, in order. */
  lemma {:induction false} LineCharsOfLine(line: string, rest: string)
    requires '\n' !in line && '\r' !in line
    ensures LineChars(line + "\n" + rest) == line + LineChars(rest)
  {
    if |line| > 0 {
      assert (line + "\n" + rest)[1..] == line[1..] + "\n" + rest;
      LineCharsOfLine(line[1..], rest);
      assert line == [line[0]] + line[1..];
    } else {
      assert (line + "\n" + rest)[1..] == rest;
    }
  }

  /** The heights of a sequence of characters; `None` when one is not a height. */
  function DecodeAll(cs: string): (r: Option<seq<int>>)
    ensures r.Some? <==> forall i :: 0 <= i < |cs| ==> Decode(cs[i]).Some?
    ensures r.Some? ==> |r.value| == |cs|
    ensures r.Some? ==> forall i :: 0 <= i < |cs| ==> Some(r.value[i]) == Decode(cs[i])
    ensures r.Some? ==> forall i :: 0 <= i < |r.value| ==> START <= r.value[i] <= END
  {
    if |cs| == 0 then Some([])
    else
      match (Decode(cs[0]), DecodeAll(cs[1..]))
      case (Some(h), Some(hs)) => Some([h] + hs)
      case (None, _) => None
      case (_, None) =>
        assert forall i :: 1 <= i < |cs| ==> cs[1..][i - 1] == cs[i];
        None
  }

  /** The index of the first `\n`, if any (`str::find`). */
  function FindNewline(s: string): (r: Option<nat>)
    ensures r.Some? <==> '\n' in s
    ensures r.Some? ==> r.value < |s| && s[r.value] == '\n' && '\n' !in s[..r.value]
  {
    match SplitOnce(s, '\n')
    case None => None
    case Some((left, _)) => Some(|left|)
  }

  /**
   * `HeatMap::from_str`. `None` stands for its panics: no `\n` to measure a
   * row by, a character that is not a height, or a first line that is empty
   * (division by zero).
   */
  function FromStr(s: string): (r: Option<HeatMap>)
    ensures r.Some? ==> Shaped(r.value)
  {
    match FindNewline(s)
    case None => None
    case Some(cols) =>
      if cols == 0 then None else Rows(DecodeAll(LineChars(s)), cols)
  }

  /** The map of the decoded heights cut into rows of `cols`, when every character decoded. */
  function Rows(values: Option<seq<int>>, cols: nat): (r: Option<HeatMap>)
    requires cols > 0
    requires values.Some? ==> forall i :: 0 <= i < |values.value| ==> START <= values.value[i] <= END
    ensures r.Some? <==> values.Some?
    ensures r.Some? ==> Shaped(r.value) && r.value.values == values.value && r.value.cols == cols
  {
    match values
    case None => None
    case Some(v) =>
      RowsOfWidth(v, cols);
      Some(HeatMap(|v| / cols, cols, v))
  }

  /** `n / d` rows of `d` fit in `n`, and one more row does not. */
  lemma DivBounds(n: nat, d: nat)
    requires d > 0
    ensures (n / d) * d <= n < (n / d + 1) * d
  {
  }

  /**
   * What parsing produces: rows of a positive width, as many full rows as
   * the heights fill, every in-range position inside `values`, and every
   * height between `START` and `END`.
   */
  ghost predicate Shaped(hm: HeatMap)
  {
    && hm.cols > 0
    && hm.rows * hm.cols <= |hm.values| < (hm.rows + 1) * hm.cols
    && Grid(hm)
    && forall i :: 0 <= i < |hm.values| ==> START <= hm.values[i] <= END
  }

  /** Cutting decoded heights into rows of `cols` gives a well-shaped map. */
  lemma RowsOfWidth(values: seq<int>, cols: nat)
    requires cols > 0
    requires forall i :: 0 <= i < |values| ==> START <= values[i] <= END
    ensures Shaped(HeatMap(|values| / cols, cols, values))
  {
    var rows := |values| / cols;
    DivBounds(|values|, cols);
    GridOfSize(HeatMap(rows, cols, values));
  }

  /** The first row's width is the position of the first `\n`. */
  lemma FromStrCols(s: string)
    requires FromStr(s).Some?
    ensures FindNewline(s).Some? && FromStr(s).value.cols == FindNewline(s).value
    ensures FromStr(s).value.cols > 0 && s[FromStr(s).value.cols] == '\n'
  {
  }

  /** Only a character that is neither a height nor a line ending makes parsing fail, once a row has been measured. */
  lemma FromStrDecodes(s: string)
    requires FindNewline(s).Some? && FindNewline(s).value > 0
    ensures FromStr(s).Some? <==> forall i :: 0 <= i < |LineChars(s)| ==> Decode(LineChars(s)[i]).Some?
  {
  }

  /** An in-range position: row below `rows`, column below `cols`. */
  predicate InBounds(p: Pos, rows: nat, cols: nat)
  {
    p.0 < rows && p.1 < cols
  }

  /** Where `index` looks for `(row, col)`: `row * cols + col`. */
  function Offset(hm: HeatMap, p: Pos): nat
  {
    p.0 * hm.cols + p.1
  }

  /** Every in-range position has its own cell, inside `values`. */
  lemma OffsetInRange(hm: HeatMap, p: Pos)
    requires InBounds(p, hm.rows, hm.cols) && hm.rows * hm.cols <= |hm.values|
    ensures Offset(hm, p) < |hm.values|
    ensures Offset(hm, p) / hm.cols == p.0 && Offset(hm, p) % hm.cols == p.1
  {
    MulLeft(p.0 + 1, hm.rows, hm.cols);
    assert (p.0 + 1) * hm.cols == p.0 * hm.cols + hm.cols;
    ModUnique(Offset(hm, p), hm.cols, p.0, p.1);
  }

  lemma MulLeft(a: nat, b: nat, c: nat)
    requires a <= b
    ensures a * c <= b * c
  {
  }

  /** Distinct in-range positions have distinct cells. */
  lemma OffsetInjective(hm: HeatMap, p: Pos, q: Pos)
    requires InBounds(p, hm.rows, hm.cols) && InBounds(q, hm.rows, hm.cols)
    requires hm.rows * hm.cols <= |hm.values|
    ensures Offset(hm, p) == Offset(hm, q) <==> p == q
  {
    OffsetInRange(hm, p);
    OffsetInRange(hm, q);
  }

  /** Every in-range position has its cell in `values`, so indexing it cannot panic. */
  ghost predicate Grid(hm: HeatMap)
  {
    && hm.rows * hm.cols <= |hm.values|
    && forall p: Pos :: InBounds(p, hm.rows, hm.cols) ==> Offset(hm, p) < |hm.values|
  }

  /** `rows * cols` cells suffice for every in-range position. */
  lemma GridOfSize(hm: HeatMap)
    requires hm.rows * hm.cols <= |hm.values|
    ensures Grid(hm)
  {
    forall p: Pos | InBounds(p, hm.rows, hm.cols)
      ensures Offset(hm, p) < |hm.values|
    {
      OffsetInRange(hm, p);
    }
  }

  /** `Index<(usize, usize)>`: the height at a position; out of `values` it panics. */
  function Height(hm: HeatMap, p: Pos): (h: int)
    requires Offset(hm, p) < |hm.values|
    ensures h in hm.values
  {
    hm.values[Offset(hm, p)]
  }

  /** `CARDINALS`: right, left, down, up. */
  const CARDINALS: seq<(int, int)> := [(0, 1), (0, -1), (1, 0), (-1, 0)]

  /**
   * One cardinal step from `p`: `None` when a coordinate would be negative
   * (the failed `try_into`) or out of range (the `filter`).
   */
  function Step(p: Pos, d: (int, int), rows: nat, cols: nat): (r: Option<Pos>)
    ensures r.Some? <==> 0 <= p.0 + d.0 < rows && 0 <= p.1 + d.1 < cols
    ensures r.Some? ==> r.value.0 == p.0 + d.0 && r.value.1 == p.1 + d.1
  {
    var i, j := p.0 + d.0, p.1 + d.1;
    if i < 0 || j < 0 then None
    else if i < rows && j < cols then Some((i, j))
    else None
  }

  /** The successful steps from `p` along `dirs`, in order. */
  function Steps(p: Pos, dirs: seq<(int, int)>, rows: nat, cols: nat): (r: seq<Pos>)
    ensures |r| <= |dirs|
    ensures forall q :: q in r <==> exists k :: 0 <= k < |dirs| && Step(p, dirs[k], rows, cols) == Some(q)
  {
    if |dirs| == 0 then []
    else
      var rest := Steps(p, dirs[1..], rows, cols);
      assert forall k :: 1 <= k < |dirs| ==> dirs[1..][k - 1] == dirs[k];
      match Step(p, dirs[0], rows, cols)
      case None => rest
      case Some(q) => [q] + rest
  }

  /** Two positions one step apart along a row or a column. */
  predicate Neighbours(p: Pos, q: Pos)
  {
    || (p.0 == q.0 && (q.1 == p.1 + 1 || p.1 == q.1 + 1))
    || (p.1 == q.1 && (q.0 == p.0 + 1 || p.0 == q.0 + 1))
  }

  /** `adjacents`: the in-range cardinal neighbours of `p`, right, left, down, up. */
  function Adjacents(p: Pos, rows: nat, cols: nat): (r: seq<Pos>)
    ensures |r| <= 4
  {
    Steps(p, CARDINALS, rows, cols)
  }

  /** `adjacents` yields exactly the in-range positions one step away. */
  lemma AdjacentsExactly(p: Pos, rows: nat, cols: nat, q: Pos)
    ensures q in Adjacents(p, rows, cols) <==> InBounds(q, rows, cols) && Neighbours(p, q)
  {
    if InBounds(q, rows, cols) && Neighbours(p, q) {
      if q.0 == p.0 && q.1 == p.1 + 1 {
        assert Step(p, CARDINALS[0], rows, cols) == Some(q);
      } else if q.0 == p.0 {
        assert Step(p, CARDINALS[1], rows, cols) == Some(q);
      } else if q.0 == p.0 + 1 {
        assert Step(p, CARDINALS[2], rows, cols) == Some(q);
      } else {
        assert Step(p, CARDINALS[3], rows, cols) == Some(q);
      }
    }
  }

  /** Neighbours are never the position itself, and the relation is symmetric. */
  lemma NeighboursSymmetric(p: Pos, q: Pos)
    ensures Neighbours(p, q) <==> Neighbours(q, p)
    ensures Neighbours(p, q) ==> p != q
  {
  }

  /** Different directions lead to different positions. */
  lemma {:induction false} StepsDistinct(p: Pos, dirs: seq<(int, int)>, rows: nat, cols: nat)
    requires Distinct(dirs)
    ensures Distinct(Steps(p, dirs, rows, cols))
  {
    if |dirs| > 0 {
      var rest := Steps(p, dirs[1..], rows, cols);
      StepsDistinct(p, dirs[1..], rows, cols);
      var first := Step(p, dirs[0], rows, cols);
      if first.Some? {
        var q := first.value;
        assert Steps(p, dirs, rows, cols) == [q] + rest;
        assert forall k :: 0 <= k < |dirs[1..]| ==> dirs[1..][k] == dirs[k + 1];
        assert q !in rest;
        var r := [q] + rest;
        forall a, b | 0 <= a < b < |r|
          ensures r[a] != r[b]
        {
          assert r[b] == rest[b - 1];
          if a > 0 {
            assert r[a] == rest[a - 1];
          }
        }
      } else {
        assert Steps(p, dirs, rows, cols) == rest;
      }
    }
  }

  /** `adjacents` never yields a position twice. */
  lemma AdjacentsDistinct(p: Pos, rows: nat, cols: nat)
    ensures Distinct(Adjacents(p, rows, cols))
  {
    StepsDistinct(p, CARDINALS, rows, cols);
    assert Adjacents(p, rows, cols) == Steps(p, CARDINALS, rows, cols);
  }

  /**
   * The search's edge from `curr` to `pos`: `input[curr] - input[pos] <= 1`.
   * Searching backward from the goal, it is a forward climb from `pos` to
   * `curr` of at most one.
   */
  predicate CanStep(hm: HeatMap, curr: Pos, pos: Pos)
    requires Offset(hm, curr) < |hm.values| && Offset(hm, pos) < |hm.values|
  {
    Height(hm, curr) - Height(hm, pos) <= 1
  }

  /** The search's successors of `curr`: its neighbours an edge reaches. */
  function Successors(hm: HeatMap, curr: Pos): (r: seq<Pos>)
    requires Grid(hm) && InBounds(curr, hm.rows, hm.cols)
    ensures |r| <= 4
    ensures forall q :: q in r <==>
              && InBounds(q, hm.rows, hm.cols) && Neighbours(curr, q)
              && Height(hm, curr) <= Height(hm, q) + 1
  {
    var adj := Adjacents(curr, hm.rows, hm.cols);
    forall q | q in adj
      ensures InBounds(q, hm.rows, hm.cols) && Neighbours(curr, q)
    {
      AdjacentsExactly(curr, hm.rows, hm.cols, q);
    }
    forall q | InBounds(q, hm.rows, hm.cols) && Neighbours(curr, q)
      ensures q in adj
    {
      AdjacentsExactly(curr, hm.rows, hm.cols, q);
    }
    Filter(hm, curr, adj)
  }

  function Filter(hm: HeatMap, curr: Pos, adj: seq<Pos>): (r: seq<Pos>)
    requires Offset(hm, curr) < |hm.values|
    requires forall q :: q in adj ==> Offset(hm, q) < |hm.values|
    ensures |r| <= |adj|
    ensures forall q :: q in r <==> q in adj && CanStep(hm, curr, q)
  {
    if |adj| == 0 then []
    else
      var rest := Filter(hm, curr, adj[1..]);
      if CanStep(hm, curr, adj[0]) then [adj[0]] + rest else rest
  }

  /**
   * Backward edges are forward climbs: the search may go from `curr` to
   * `pos` exactly when a climber could step from `pos` to `curr`, which is
   * at most one higher, or anywhere lower.
   */
  lemma SuccessorIsClimb(hm: HeatMap, curr: Pos, pos: Pos)
    requires Grid(hm) && InBounds(curr, hm.rows, hm.cols) && InBounds(pos, hm.rows, hm.cols)
    ensures pos in Successors(hm, curr) <==> Neighbours(pos, curr) && Height(hm, curr) <= Height(hm, pos) + 1
  {
  }

  /**
   * The start, decoded below `a`, is entered only from a neighbour of height
   * `a`: a climber leaving it may not go straight to `b`.
   */
  lemma StartEnteredOnlyFromA(hm: HeatMap, curr: Pos, start: Pos)
    requires Grid(hm) && InBounds(curr, hm.rows, hm.cols) && InBounds(start, hm.rows, hm.cols)
    requires Height(hm, start) == START && START <= Height(hm, curr)
    ensures start in Successors(hm, curr) <==> Neighbours(curr, start) && Height(hm, curr) <= 0
  {
  }

  /** The goal, above `z`, is left only towards `z` or itself higher: only a `z` climbs to it. */
  lemma EndLeftOnlyToZ(hm: HeatMap, pos: Pos, end: Pos)
    requires Grid(hm) && InBounds(pos, hm.rows, hm.cols) && InBounds(end, hm.rows, hm.cols)
    requires Height(hm, end) == END && START <= Height(hm, pos) < END
    ensures pos in Successors(hm, end) <==> Neighbours(pos, end) && Height(hm, pos) == 25
  {
  }

  /** Part one's goal: the fixed start position. */
  predicate Part1Goal(p: Pos)
  {
    p == START_POS
  }

  /** Part two's goal: any position of height `a`. */
  predicate Part2Goal(hm: HeatMap, p: Pos)
    requires Offset(hm, p) < |hm.values|
  {
    Height(hm, p) == 0
  }

  /**
   * Part one's search has exactly one goal, and it is not the position the
   * search starts from.
   */
  lemma Part1GoalSingle(p: Pos, q: Pos)
    ensures Part1Goal(p) && Part1Goal(q) ==> p == q
    ensures !Part1Goal(END_POS)
  {
  }

  /**
   * A part-two goal is a cell drawn `a`. The start `S` decodes below `a`, so
   * the search does not stop there although the puzzle gives it height `a`.
   */
  lemma Part2GoalIsA(hm: HeatMap, p: Pos, c: char)
    requires Offset(hm, p) < |hm.values| && Decode(c) == Some(Height(hm, p))
    ensures Part2Goal(hm, p) <==> c == 'a'
    ensures c == 'S' ==> !Part2Goal(hm, p)
  {
  }
}
