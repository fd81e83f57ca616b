/**
 * Day 1, calorie counting: each elf's snack list is summed, and the answers
 * are the largest total and the sum of the three largest totals.
 */
module CalorieCounting {
  import opened Common
  import opened Numbers
  import opened HighestN

  /** The value a line contributes to its group: its `u32` value, or nothing if it does not parse. */
  function LineValue(line: string): (v: nat)
    ensures v <= U32_MAX
  {
    match ParseUnsigned(line, U32_MAX)
    case Some(n) => n
    case None => 0
  }

  /** The total of one blank-line-separated group of lines. */
  function GroupTotal(lines: seq<string>): (t: nat)
    ensures t <= |lines| * U32_MAX
  {
    if |lines| == 0 then 0 else LineValue(lines[0]) + GroupTotal(lines[1..])
  }

  /**
   * `gerator`: one total per group, in input order. The input text is taken
   * as already split into groups (at blank lines) and lines.
   */
  function Generator(groups: seq<seq<string>>): (totals: seq<nat>)
    ensures |totals| == |groups|
    ensures forall i :: 0 <= i < |groups| ==> totals[i] == GroupTotal(groups[i])
  {
    if |groups| == 0 then [] else [GroupTotal(groups[0])] + Generator(groups[1..])
  }

  /** A group whose lines are the renderings of `vs` totals to the sum of `vs`. */
  lemma {:induction false} GroupOfNumbers(vs: seq<nat>)
    requires forall i :: 0 <= i < |vs| ==> vs[i] <= U32_MAX
    ensures GroupTotal(seq(|vs|, i requires 0 <= i < |vs| => ShowNat(vs[i]))) == Sum(vs)
  {
    var lines := seq(|vs|, i requires 0 <= i < |vs| => ShowNat(vs[i]));
    if |vs| > 0 {
      ParseShowUnsigned(vs[0], U32_MAX);
      assert lines[1..] == seq(|vs[1..]|, i requires 0 <= i < |vs[1..]| => ShowNat(vs[1..][i]));
      GroupOfNumbers(vs[1..]);
    }
  }

  /** A line that does not parse leaves the group total unchanged, wherever it is. */
  lemma {:induction false} UnparsableLineIgnored(before: seq<string>, bad: string, after: seq<string>)
    requires ParseUnsigned(bad, U32_MAX).None?
    ensures GroupTotal(before + [bad] + after) == GroupTotal(before + after)
  {
    if |before| == 0 {
      assert before + [bad] + after == [bad] + after;
      assert before + after == after;
      assert ([bad] + after)[1..] == after;
      assert LineValue(bad) == 0;
    } else {
      assert (before + [bad] + after)[1..] == before[1..] + [bad] + after;
      assert (before + after)[1..] == before[1..] + after;
      UnparsableLineIgnored(before[1..], bad, after);
    }
  }

  /** `part1`: the largest total. The `unwrap` on `max` needs a non-empty input. */
  function Part1(input: seq<nat>): (r: nat)
    requires |input| > 0
    ensures r in input
    ensures forall i :: 0 <= i < |input| ==> input[i] <= r
  {
    if |input| == 1 then input[0]
    else
      var rest := Part1(input[1..]);
      if input[0] < rest then rest else input[0]
  }

  /** `part2`: the sum of what `n_highest::<3>()` yields. */
  function Part2(input: seq<nat>): (r: int)
    ensures var top := Drain(New(input, 3));
            && |top| == Min(3, |input|)
            && IsTopN(multiset(top), input, 3)
            && r == Sum(top)
  {
    Sum(Drain(New(input, 3)))
  }

  /** The largest total is among the three largest. */
  lemma {:induction false} MaxAmongTopThree(input: seq<nat>)
    requires |input| > 0
    ensures Part1(input) in multiset(New(input, 3))
  {
    var X := multiset(input);
    var K := multiset(New(input, 3));
    var M := Part1(input);
    var top := Drain(New(input, 3));
    assert top[0] in K;
    forall y | y in X
      ensures y <= M
    {
      var j :| 0 <= j < |input| && input[j] == y;
    }
    MaximumIsKept(K, X, M, top[0]);
  }

  /** A maximum of the input is kept by any top-N choice that keeps something. */
  lemma MaximumIsKept(K: multiset<int>, X: multiset<int>, M: int, a: int)
    requires K <= X && Dominates(K, X - K) && a in K
    requires M in X && forall y :: y in X ==> y <= M
    ensures M in K
  {
    if a != M {
      assert a < M;
      assert M !in X - K;
    }
  }

  /** A sum of naturals is at least any one of them. */
  lemma {:induction false} SumAtLeastMember(s: seq<int>, v: int)
    requires forall i :: 0 <= i < |s| ==> s[i] >= 0
    requires v in s
    ensures Sum(s) >= v
  {
    if s[0] == v {
      SumNonNegative(s[1..]);
    } else {
      SumAtLeastMember(s[1..], v);
    }
  }

  /** The answer to part two is never below the answer to part one. */
  lemma Part2AtLeastPart1(input: seq<nat>)
    requires |input| > 0
    ensures Part2(input) >= Part1(input)
  {
    var top := Drain(New(input, 3));
    MaxAmongTopThree(input);
    assert Part1(input) in multiset(top);
    forall i | 0 <= i < |top|
      ensures top[i] >= 0
    {
      assert top[i] in multiset(input);
    }
    SumAtLeastMember(top, Part1(input));
  }

  /** `part1` agrees with draining a selector of capacity one. */
  lemma Part1IsHighestOne(input: seq<nat>)
    requires |input| > 0
    ensures Drain(New(input, 1)) == [Part1(input)]
  {
    var r := Drain(New(input, 1));
    NewOneIsMax(input);
    assert r[0] <= Part1(input) && Part1(input) <= r[0];
  }
}
