/**
 * Day 9, rope bridge: a rope of knots is pulled by its head one unit step
 * at a time; every other knot follows its predecessor whenever it falls more
 * than one step (king distance) behind. The answers count the distinct
 * positions of the tail for ropes of 2 and 10 knots.
 */
module RopeBridge {
  import opened Common
  import opened Numbers

  datatype Pos = Pos(x: int, y: int)

  /** `AddAssign for Pos`. */
  function Add(a: Pos, b: Pos): Pos
  {
    Pos(a.x + b.x, a.y + b.y)
  }

  const ORIGIN: Pos := Pos(0, 0)

  datatype Dir = Up | Down | Left | Right

  /** The directions `Dir::from_str` accepts; anything else is `unreachable!()`. */
  predicate IsDirName(s: string)
  {
    s == "U" || s == "D" || s == "L" || s == "R"
  }

  /** `Dir::from_str`. */
  function DirFromStr(s: string): (d: Dir)
    requires IsDirName(s)
    ensures d == Up <==> s == "U"
    ensures d == Down <==> s == "D"
    ensures d == Left <==> s == "L"
    ensures d == Right <==> s == "R"
  {
    if s == "U" then Up else if s == "D" then Down else if s == "L" then Left else Right
  }

  function Abs(n: int): nat
  {
    if n < 0 then -n else n
  }

  /** `Dir::to_pos`: a unit vector along one axis, `y` growing downwards. */
  function ToPos(d: Dir): (p: Pos)
    ensures Abs(p.x) + Abs(p.y) == 1
    ensures (d == Up || d == Down) <==> p.x == 0
  {
    match d
    case Up => Pos(0, -1)
    case Down => Pos(0, 1)
    case Left => Pos(-1, 0)
    case Right => Pos(1, 0)
  }

  /** The four directions lead to four different positions. */
  lemma ToPosInjective(d: Dir, e: Dir)
    requires d != e
    ensures ToPos(d) != ToPos(e)
  {
  }

  /** `king_distance`: the larger of the two coordinate distances. */
  function KingDistance(a: Pos, b: Pos): (k: nat)
    ensures k == Max(Abs(a.x - b.x), Abs(a.y - b.y))
    ensures k == 0 <==> a == b
    ensures Abs(a.x - b.x) <= k && Abs(a.y - b.y) <= k
  {
    var dx, dy := Abs(a.x - b.x), Abs(a.y - b.y);
    if dx < dy then dy else dx
  }

  lemma KingDistanceSymmetric(a: Pos, b: Pos)
    ensures KingDistance(a, b) == KingDistance(b, a)
  {
  }

  lemma KingDistanceTriangle(a: Pos, b: Pos, c: Pos)
    ensures KingDistance(a, c) <= KingDistance(a, b) + KingDistance(b, c)
  {
  }

  /** `i32::signum`. */
  function Signum(n: int): (s: int)
    ensures s == -1 || s == 0 || s == 1
    ensures s == 0 <==> n == 0
    ensures s * n == Abs(n)
  {
    if n < 0 then -1 else if n == 0 then 0 else 1
  }

  /** `normal_diff`: one step from `a` towards `b` on each axis where they differ. */
  function NormalDiff(a: Pos, b: Pos): (d: Pos)
    ensures d.x == Signum(b.x - a.x) && d.y == Signum(b.y - a.y)
    ensures KingDistance(d, ORIGIN) <= 1
  {
    Pos(Signum(b.x - a.x), Signum(b.y - a.y))
  }

  /**
   * Following a predecessor at king distance 2 leaves the follower adjacent
   * to it, after moving one king step.
   */
  lemma FollowCloses(prev: Pos, cur: Pos)
    requires KingDistance(prev, cur) == 2
    ensures KingDistance(prev, Add(cur, NormalDiff(cur, prev))) <= 1
    ensures KingDistance(cur, Add(cur, NormalDiff(cur, prev))) <= 1
  {
  }

  // ---------------------------------------------------------------------------
  // Parsing
  // ---------------------------------------------------------------------------

  /**
   * The lines `generator` accepts: a direction, a space, and a step count
   * that fits a `usize` (each `unwrap`).
   */
  predicate IsMotionLine(line: string)
  {
    match SplitOnce(line, ' ')
    case None => false
    case Some((left, right)) => IsDirName(left) && ParseUnsigned(right, USIZE_MAX).Some?
  }

  /** One line of `generator`. */
  function ParseMotion(line: string): (m: (Dir, nat))
    requires IsMotionLine(line)
    ensures |line| >= 2 && line[..2] == DirName(m.0) + " "
    ensures m.1 <= USIZE_MAX
  {
    var (left, right) := SplitOnce(line, ' ').value;
    assert line == left + [' '] + right;
    (DirFromStr(left), ParseUnsigned(right, USIZE_MAX).value)
  }

  function DirName(d: Dir): string
  {
    match d
    case Up => "U"
    case Down => "D"
    case Left => "L"
    case Right => "R"
  }

  /** A motion written as the puzzle writes it reads back as itself. */
  lemma ParseMotionRoundTrip(d: Dir, steps: nat)
    requires steps <= USIZE_MAX
    ensures IsMotionLine(DirName(d) + " " + ShowNat(steps))
    ensures ParseMotion(DirName(d) + " " + ShowNat(steps)) == (d, steps)
  {
    assert DirName(d) + " " + ShowNat(steps) == DirName(d) + [' '] + ShowNat(steps);
    SplitOnceAt(DirName(d), ' ', ShowNat(steps));
    ParseShowUnsigned(steps, USIZE_MAX);
  }

  // ---------------------------------------------------------------------------
  // The rope
  // ---------------------------------------------------------------------------

  /** `Rope<N>`: the knots, head first. */
  type Rope = seq<Pos>

  /** `Rope::default`: every knot at the origin. */
  function Default(n: nat): (r: Rope)
    ensures |r| == n && forall i :: 0 <= i < n ==> r[i] == ORIGIN
  {
    seq(n, _ => ORIGIN)
  }

  /** `tail`: the last knot. `N - 1` needs a knot. On a taut rope it is at most `N - 1` king steps from the head. */
  function Tail(r: Rope): (t: Pos)
    requires |r| > 0
    ensures Taut(r) ==> KingDistance(r[0], t) <= |r| - 1
  {
    TautSpan(r, |r| - 1);
    r[|r| - 1]
  }

  /** Along a taut rope, knot `i` is at most `i` king steps from the head. */
  lemma {:induction false} TautSpan(r: Rope, i: nat)
    requires i < |r|
    ensures Taut(r) ==> KingDistance(r[0], r[i]) <= i
  {
    if i > 0 && Taut(r) {
      TautSpan(r, i - 1);
      assert Adjacent(r, i);
      KingDistanceTriangle(r[0], r[i - 1], r[i]);
    }
  }

  /** Every knot is within one king step of its predecessor. */
  predicate Taut(r: Rope)
  {
    forall i :: 1 <= i < |r| ==> Adjacent(r, i)
  }

  /** Knot `i` is within one king step of knot `i - 1`. */
  predicate Adjacent(r: Rope, i: nat)
    requires 1 <= i < |r|
  {
    KingDistance(r[i - 1], r[i]) <= 1
  }

  /** Knot `i` of `out` is knot `i` of `r` after one step towards knot `i - 1` of `out`, which was too far. */
  predicate SteppedAfter(r: Rope, out: Rope, i: nat)
    requires 1 <= i < |r| == |out|
  {
    out[i] == Add(r[i], NormalDiff(r[i], out[i - 1])) && KingDistance(out[i - 1], r[i]) > 1
  }

  /**
   * `out` is `r` after the `for` loop of `m0ve` ran from knot `i` and broke
   * at knot `stop`: every knot before `stop` was more than one step from its
   * moved predecessor and took one step towards it, knot `stop` was close
   * enough, and it and every later knot are unchanged.
   */
  predicate FollowedUpTo(r: Rope, out: Rope, i: nat, stop: nat)
    requires 1 <= i <= stop <= |r| == |out|
  {
    && (forall j :: i <= j < stop ==> SteppedAfter(r, out, j))
    && (forall j :: stop <= j < |r| ==> out[j] == r[j])
    && (stop < |r| ==> KingDistance(out[stop - 1], r[stop]) <= 1)
  }

  /** The `for` loop of `m0ve`, from knot `i` on. */
  function Follow(r: Rope, i: nat): (out: Rope)
    requires 1 <= i <= |r|
    ensures |out| == |r|
    ensures forall j :: 0 <= j < i ==> out[j] == r[j]
    decreases |r| - i
  {
    if i == |r| then r
    else if KingDistance(r[i - 1], r[i]) > 1 then
      Follow(r[i := Add(r[i], NormalDiff(r[i], r[i - 1]))], i + 1)
    else r
  }

  /** The loop moves the knots from `i` up to a stopping point and leaves the rest. */
  lemma {:induction false} FollowFollowsUpTo(r: Rope, i: nat)
    requires 1 <= i <= |r|
    ensures exists stop :: i <= stop <= |r| && FollowedUpTo(r, Follow(r, i), i, stop)
    decreases |r| - i
  {
    var out := Follow(r, i);
    if i == |r| {
      assert out == r;
      assert FollowedUpTo(r, out, i, |r|);
    } else if KingDistance(r[i - 1], r[i]) > 1 {
      var next := r[i := Add(r[i], NormalDiff(r[i], r[i - 1]))];
      assert out == Follow(next, i + 1);
      FollowFollowsUpTo(next, i + 1);
      var stop :| i + 1 <= stop <= |next| && FollowedUpTo(next, out, i + 1, stop);
      FollowedStep(r, next, out, i, stop);
      assert FollowedUpTo(r, out, i, stop);
    } else {
      assert out == r;
      assert FollowedUpTo(r, out, i, i);
    }
  }

  /** Moving knot `i`, then following from `i + 1`, is following from `i`. */
  lemma FollowedStep(r: Rope, next: Rope, out: Rope, i: nat, stop: nat)
    requires 1 <= i < stop <= |r| == |next| == |out|
    requires KingDistance(r[i - 1], r[i]) > 1
    requires next == r[i := Add(r[i], NormalDiff(r[i], r[i - 1]))]
    requires forall j :: 0 <= j < i + 1 ==> out[j] == next[j]
    requires FollowedUpTo(next, out, i + 1, stop)
    ensures FollowedUpTo(r, out, i, stop)
  {
    assert out[i] == Add(r[i], NormalDiff(r[i], out[i - 1]));
    forall j | i <= j < stop
      ensures SteppedAfter(r, out, j)
    {
      if j > i {
        assert SteppedAfter(next, out, j) && next[j] == r[j];
      }
    }
    forall j | i + 1 <= j < |r|
      ensures next[j] == r[j]
    {
    }
  }

  /** `m0ve`: the head takes the step, then the knots follow. */
  function Move(r: Rope, step: Pos): (out: Rope)
    requires |r| > 0
    ensures |out| == |r|
    ensures out[0] == Add(r[0], step)
  {
    Follow(r[0 := Add(r[0], step)], 1)
  }

  /** A knot far from its predecessor steps towards it and the loop goes on with the next knot. */
  lemma FollowMoves(r: Rope, i: nat)
    requires 1 <= i < |r| && KingDistance(r[i - 1], r[i]) > 1
    ensures Follow(r, i) == Follow(r[i := Add(r[i], NormalDiff(r[i], r[i - 1]))], i + 1)
  {
  }

  /** A knot already close to its predecessor stops the loop: it and every later knot stay put. */
  lemma FollowStops(r: Rope, i: nat)
    requires 1 <= i < |r| && KingDistance(r[i - 1], r[i]) <= 1
    ensures Follow(r, i) == r
  {
  }

  /**
   * A taut rope stays taut under a king step of the head: each knot that
   * moves moves by one king step, and its follower is then at most two away.
   */
  lemma {:induction false} FollowKeepsTaut(r: Rope, i: nat)
    requires 1 <= i <= |r|
    requires forall j :: 1 <= j < i ==> Adjacent(r, j)
    requires forall j :: i < j < |r| ==> Adjacent(r, j)
    requires i < |r| ==> KingDistance(r[i - 1], r[i]) <= 2
    ensures Taut(Follow(r, i))
    decreases |r| - i
  {
    if i < |r| {
      if KingDistance(r[i - 1], r[i]) > 1 {
        FollowedKnotTaut(r, i);
        FollowMoves(r, i);
        FollowKeepsTaut(r[i := Add(r[i], NormalDiff(r[i], r[i - 1]))], i + 1);
      } else {
        FollowStops(r, i);
      }
    }
  }

  /** After knot `i` steps towards its predecessor, the rope meets the conditions from knot `i + 1`. */
  lemma FollowedKnotTaut(r: Rope, i: nat)
    requires 1 <= i < |r| && KingDistance(r[i - 1], r[i]) > 1
    requires forall j :: 1 <= j < i ==> Adjacent(r, j)
    requires forall j :: i < j < |r| ==> Adjacent(r, j)
    requires KingDistance(r[i - 1], r[i]) <= 2
    ensures var next := r[i := Add(r[i], NormalDiff(r[i], r[i - 1]))];
            && (forall j :: 1 <= j < i + 1 ==> Adjacent(next, j))
            && (forall j :: i + 1 < j < |r| ==> Adjacent(next, j))
            && (i + 1 < |r| ==> KingDistance(next[i], next[i + 1]) <= 2)
  {
    var moved := Add(r[i], NormalDiff(r[i], r[i - 1]));
    var next := r[i := moved];
    FollowCloses(r[i - 1], r[i]);
    forall j | 1 <= j < i + 1
      ensures Adjacent(next, j)
    {
      if j < i {
        assert Adjacent(r, j);
        assert next[j - 1] == r[j - 1] && next[j] == r[j];
      }
    }
    forall j | i + 1 < j < |r|
      ensures Adjacent(next, j)
    {
      assert Adjacent(r, j);
      assert next[j - 1] == r[j - 1] && next[j] == r[j];
    }
    if i + 1 < |r| {
      assert Adjacent(r, i + 1);
      KingDistanceTriangle(moved, r[i], r[i + 1]);
      KingDistanceSymmetric(moved, r[i]);
    }
  }

  /** `m0ve` keeps a taut rope taut when the head takes a king step. */
  lemma MoveKeepsTaut(r: Rope, step: Pos)
    requires |r| > 0 && Taut(r) && KingDistance(step, ORIGIN) <= 1
    ensures Taut(Move(r, step))
  {
    var h := Add(r[0], step);
    if |r| > 1 {
      assert Adjacent(r, 1);
      KingDistanceTriangle(h, r[0], r[1]);
    }
    var pulled := r[0 := h];
    forall j | 1 < j < |r|
      ensures Adjacent(pulled, j)
    {
      assert Adjacent(r, j);
    }
    FollowKeepsTaut(pulled, 1);
  }

  // ---------------------------------------------------------------------------
  // The answers
  // ---------------------------------------------------------------------------

  /** The `flat_map`: each motion becomes `steps` copies of its unit step. */
  function Steps(motions: seq<(Dir, nat)>): (steps: seq<Pos>)
    ensures forall i :: 0 <= i < |steps| ==> KingDistance(steps[i], ORIGIN) == 1
  {
    if |motions| == 0 then []
    else seq(motions[0].1, _ => ToPos(motions[0].0)) + Steps(motions[1..])
  }

  /** Total number of unit steps. */
  function TotalSteps(motions: seq<(Dir, nat)>): nat
  {
    if |motions| == 0 then 0 else motions[0].1 + TotalSteps(motions[1..])
  }

  lemma {:induction false} StepsLength(motions: seq<(Dir, nat)>)
    ensures |Steps(motions)| == TotalSteps(motions)
  {
    if |motions| > 0 {
      StepsLength(motions[1..]);
    }
  }

  /** The `scan`: the tail after each step, and the rope at the end. */
  function Trace(r: Rope, steps: seq<Pos>): (out: (Rope, seq<Pos>))
    requires |r| > 0 && Taut(r)
    requires forall i :: 0 <= i < |steps| ==> KingDistance(steps[i], ORIGIN) <= 1
    ensures |out.0| == |r| && Taut(out.0)
    ensures |out.1| == |steps|
    ensures |steps| > 0 ==> out.1[|steps| - 1] == Tail(out.0)
    decreases |steps|
  {
    if |steps| == 0 then (r, [])
    else
      MoveKeepsTaut(r, steps[0]);
      var next := Move(r, steps[0]);
      var rest := Trace(next, steps[1..]);
      (rest.0, [Tail(next)] + rest.1)
  }

  /** `part1` and `part2` for a rope of `n` knots: the number of distinct tail positions. */
  function Visited(motions: seq<(Dir, nat)>, n: nat): (count: nat)
    requires n > 0
    ensures TotalSteps(motions) > 0 ==> 1 <= count <= TotalSteps(motions)
    ensures TotalSteps(motions) == 0 ==> count == 0
  {
    var tails := Trace(Default(n), Steps(motions)).1;
    StepsLength(motions);
    ElementsBound(tails);
    if |tails| > 0 then
      ElementsNonEmpty(tails);
      |Elements(tails)|
    else
      assert Elements(tails) == {};
      |Elements(tails)|
  }

  function Part1(motions: seq<(Dir, nat)>): (count: nat)
    ensures TotalSteps(motions) > 0 ==> 1 <= count <= TotalSteps(motions)
  {
    Visited(motions, 2)
  }

  function Part2(motions: seq<(Dir, nat)>): (count: nat)
    ensures TotalSteps(motions) > 0 ==> 1 <= count <= TotalSteps(motions)
  {
    Visited(motions, 10)
  }

  /** In a rope of two knots the tail never falls behind: it ends within one step of the head. */
  lemma TwoKnotsStayTogether(motions: seq<(Dir, nat)>)
    ensures var r := Trace(Default(2), Steps(motions)).0;
            KingDistance(r[0], r[1]) <= 1
  {
    assert Adjacent(Default(2), 1);
    var r := Trace(Default(2), Steps(motions)).0;
    assert Adjacent(r, 1);
  }
}
