/**
 * Day 4, camp cleanup: each line assigns two inclusive section ranges; part
 * one counts pairs where one range contains the other, part two pairs that
 * overlap at all.
 */
module CampCleanup {
  import opened Common
  import opened Numbers

  /** `RangeInclusive<u32>`: `start..=end`, empty when `start > end`. */
  datatype Range = Range(start: nat, end: nat)

  /** `RangeInclusive::contains`. */
  predicate Contains(r: Range, x: int)
  {
    r.start <= x <= r.end
  }

  predicate NonEmpty(r: Range)
  {
    r.start <= r.end
  }

  /** `fully_overlaps`: `self` starts no later and ends no earlier than `other`. */
  predicate FullyOverlaps(a: Range, b: Range)
  {
    a.start <= b.start && a.end >= b.end
  }

  /** `overlaps`: one range contains the other's start. */
  predicate Overlaps(a: Range, b: Range)
  {
    Contains(a, b.start) || Contains(b, a.start)
  }

  lemma FullyOverlapsReflexive(a: Range)
    ensures FullyOverlaps(a, a)
  {
  }

  lemma FullyOverlapsTransitive(a: Range, b: Range, c: Range)
    requires FullyOverlaps(a, b) && FullyOverlaps(b, c)
    ensures FullyOverlaps(a, c)
  {
  }

  /** For a non-empty `b`, full overlap is containment of every section. */
  lemma FullyOverlapsIsContainment(a: Range, b: Range)
    requires NonEmpty(b)
    ensures FullyOverlaps(a, b) <==> forall x :: Contains(b, x) ==> Contains(a, x)
  {
    if forall x :: Contains(b, x) ==> Contains(a, x) {
      assert Contains(b, b.start) && Contains(b, b.end);
    }
  }

  /** `overlaps` does not depend on the order of its arguments. */
  lemma OverlapsSymmetric(a: Range, b: Range)
    ensures Overlaps(a, b) <==> Overlaps(b, a)
  {
  }

  /** For non-empty ranges, `overlaps` holds exactly when they share a section. */
  lemma OverlapsIffShared(a: Range, b: Range)
    requires NonEmpty(a) && NonEmpty(b)
    ensures Overlaps(a, b) <==> exists x :: Contains(a, x) && Contains(b, x)
  {
    if exists x :: Contains(a, x) && Contains(b, x) {
      var x :| Contains(a, x) && Contains(b, x);
      if a.start <= b.start {
        assert Contains(a, b.start);
      } else {
        assert Contains(b, a.start);
      }
    } else {
      assert !Contains(a, a.start) || !Contains(b, a.start);
      assert !Contains(a, b.start) || !Contains(b, b.start);
    }
  }

  /** A range containing a non-empty range overlaps it. */
  lemma FullyOverlapsImpliesOverlaps(a: Range, b: Range)
    requires NonEmpty(b) && FullyOverlaps(a, b)
    ensures Overlaps(a, b)
  {
  }

  /**
   * `parse_range`: `"l-r"` is the range `l..=r`. `None` stands for the
   * `unwrap` panics: no `-`, or a side that is not a `u32`.
   */
  function ParseRange(s: string): (r: Option<Range>)
    ensures r.Some? ==> r.value.start <= U32_MAX && r.value.end <= U32_MAX
  {
    match SplitOnce(s, '-')
    case None => None
    case Some((left, right)) =>
      match (ParseUnsigned(left, U32_MAX), ParseUnsigned(right, U32_MAX))
      case (Some(l), Some(r)) => Some(Range(l, r))
      case _ => None
  }

  /** Rendering a range as `l-r` and parsing it back gives the range. */
  lemma ParseRangeRoundTrip(a: Range)
    requires a.start <= U32_MAX && a.end <= U32_MAX
    ensures ParseRange(ShowNat(a.start) + "-" + ShowNat(a.end)) == Some(a)
  {
    var l := ShowNat(a.start);
    assert '-' !in l;
    SplitOnceAt(l, '-', ShowNat(a.end));
    ParseShowUnsigned(a.start, U32_MAX);
    ParseShowUnsigned(a.end, U32_MAX);
  }

  /**
   * One line of the generator: two ranges separated by `,`. `None` stands
   * for the `unwrap` panics: no `,`, or a side `parse_range` rejects.
   */
  function ParseLine(line: string): (r: Option<(Range, Range)>)
    ensures ',' !in line ==> r.None?
    ensures r.Some? ==> && r.value.0.start <= U32_MAX && r.value.0.end <= U32_MAX
                        && r.value.1.start <= U32_MAX && r.value.1.end <= U32_MAX
  {
    match SplitOnce(line, ',')
    case None => None
    case Some((left, right)) =>
      match (ParseRange(left), ParseRange(right))
      case (Some(a), Some(b)) => Some((a, b))
      case _ => None
  }

  /** Rendering a pair as `a,b` and parsing it back gives the pair. */
  lemma ParseLineRoundTrip(a: Range, b: Range)
    requires a.start <= U32_MAX && a.end <= U32_MAX
    requires b.start <= U32_MAX && b.end <= U32_MAX
    ensures var left := ShowNat(a.start) + "-" + ShowNat(a.end);
            ParseLine(left + "," + ShowNat(b.start) + "-" + ShowNat(b.end)) == Some((a, b))
  {
    var left := ShowNat(a.start) + "-" + ShowNat(a.end);
    var right := ShowNat(b.start) + "-" + ShowNat(b.end);
    assert ',' !in ShowNat(a.start) && ',' !in ShowNat(a.end);
    assert ',' !in left;
    assert left + "," + ShowNat(b.start) + "-" + ShowNat(b.end) == left + [','] + right;
    SplitOnceAt(left, ',', right);
    ParseRangeRoundTrip(a);
    ParseRangeRoundTrip(b);
  }

  /** Whether a pair counts: part one asks for containment either way round, part two for overlap. */
  predicate Counted(p: (Range, Range), contained: bool)
  {
    if contained then FullyOverlaps(p.0, p.1) || FullyOverlaps(p.1, p.0) else Overlaps(p.0, p.1)
  }

  /** `filter(..).count()`: the number of pairs that count. */
  function CountPairs(pairs: seq<(Range, Range)>, contained: bool): (n: nat)
    ensures n <= |pairs|
  {
    if |pairs| == 0 then 0
    else (if Counted(pairs[0], contained) then 1 else 0) + CountPairs(pairs[1..], contained)
  }

  /** Counting a list with one more pair at the end. */
  lemma {:induction false} CountPairsSnoc(pairs: seq<(Range, Range)>, p: (Range, Range), contained: bool)
    ensures CountPairs(pairs + [p], contained) == CountPairs(pairs, contained) + (if Counted(p, contained) then 1 else 0)
    decreases |pairs|
  {
    if |pairs| > 0 {
      assert (pairs + [p])[1..] == pairs[1..] + [p];
      CountPairsSnoc(pairs[1..], p, contained);
    } else {
      assert pairs + [p] == [p];
    }
  }

  /** The count is the number of positions holding a pair that counts. */
  lemma {:induction false} CountPairsCounts(pairs: seq<(Range, Range)>, contained: bool)
    ensures CountPairs(pairs, contained) == |set i | 0 <= i < |pairs| && Counted(pairs[i], contained)|
    decreases |pairs|
  {
    var all := set i | 0 <= i < |pairs| && Counted(pairs[i], contained);
    if |pairs| == 0 {
      assert all == {};
    } else {
      var init, last := pairs[..|pairs| - 1], pairs[|pairs| - 1];
      assert pairs == init + [last];
      CountPairsSnoc(init, last, contained);
      CountPairsCounts(init, contained);
      var before := set i | 0 <= i < |init| && Counted(init[i], contained);
      if Counted(last, contained) {
        assert all == before + {|init|};
      } else {
        assert all == before;
      }
    }
  }

  /** `part1`: pairs where either range fully contains the other. */
  function Part1(pairs: seq<(Range, Range)>): (n: nat)
    ensures n == |set i | 0 <= i < |pairs| &&
                   (FullyOverlaps(pairs[i].0, pairs[i].1) || FullyOverlaps(pairs[i].1, pairs[i].0))|
    ensures n <= |pairs|
  {
    CountPairsCounts(pairs, true);
    assert (set i | 0 <= i < |pairs| && Counted(pairs[i], true)) ==
           (set i | 0 <= i < |pairs| && (FullyOverlaps(pairs[i].0, pairs[i].1) || FullyOverlaps(pairs[i].1, pairs[i].0)));
    CountPairs(pairs, true)
  }

  /** `part2`: pairs that overlap. */
  function Part2(pairs: seq<(Range, Range)>): (n: nat)
    ensures n == |set i | 0 <= i < |pairs| && Overlaps(pairs[i].0, pairs[i].1)|
    ensures n <= |pairs|
  {
    CountPairsCounts(pairs, false);
    assert (set i | 0 <= i < |pairs| && Counted(pairs[i], false)) ==
           (set i | 0 <= i < |pairs| && Overlaps(pairs[i].0, pairs[i].1));
    CountPairs(pairs, false)
  }

  /** Every pair part one counts, part two counts too, when the ranges are non-empty. */
  lemma {:induction false} Part1AtMostPart2(pairs: seq<(Range, Range)>)
    requires forall i :: 0 <= i < |pairs| ==> NonEmpty(pairs[i].0) && NonEmpty(pairs[i].1)
    ensures Part1(pairs) <= Part2(pairs)
  {
    if |pairs| > 0 {
      var (a, b) := pairs[0];
      if FullyOverlaps(b, a) {
        FullyOverlapsImpliesOverlaps(b, a);
      }
      Part1AtMostPart2(pairs[1..]);
    }
  }
}
