/**
 * Day 3, rucksack reorganisation: items are letters with a priority; part
 * one finds the item shared by the two halves of a line, part two the item
 * shared by each group of three lines.
 */
module Rucksack {
  import opened Common

  predicate IsItem(c: char)
  {
    'a' <= c <= 'z' || 'A' <= c <= 'Z'
  }

  /** Every character below 128, so that the line's byte length is its character count. */
  predicate IsAscii(line: string)
  {
    forall j :: 0 <= j < |line| ==> line[j] as int < 128
  }

  /** `as_priority`: `a..z` are 1..26 and `A..Z` are 27..52; other characters are `unreachable!()`. */
  function Priority(c: char): (p: nat)
    requires IsItem(c)
    ensures 1 <= p <= 52
    ensures p <= 26 <==> 'a' <= c <= 'z'
  {
    if 'a' <= c <= 'z' then c as int - 'a' as int + 1 else c as int - 'A' as int + 27
  }

  /** Different items have different priorities. */
  lemma PriorityInjective(c: char, d: char)
    requires IsItem(c) && IsItem(d) && c != d
    ensures Priority(c) != Priority(d)
  {
  }

  /** `line.split_at(line.len() / 2)`: the two compartments, the right one the longer for odd lengths. */
  function Halves(line: string): (h: (string, string))
    requires IsAscii(line)
    ensures h.0 + h.1 == line
    ensures |h.0| <= |h.1| <= |h.0| + 1
  {
    (line[..|line| / 2], line[|line| / 2..])
  }

  /**
   * `right.chars().find(|c| set.contains(c))` with `set` the items of
   * `left`: the position in `right` of the first item also in `left`.
   */
  function FirstShared(left: string, right: string): (r: Option<nat>)
    ensures r.Some? ==> r.value < |right| && right[r.value] in left
    ensures r.Some? ==> forall k :: 0 <= k < r.value ==> right[k] !in left
    ensures r.None? ==> forall k :: 0 <= k < |right| ==> right[k] !in left
  {
    if |right| == 0 then None
    else if right[0] in left then Some(0)
    else
      match FirstShared(left, right[1..])
      case None => None
      case Some(k) => Some(k + 1)
  }

  /** The item both compartments of a line hold, if any: the scan's value for the line. */
  function LineShared(line: string): (r: Option<char>)
    requires IsAscii(line)
    ensures r.Some? ==> r.value in Halves(line).0 && r.value in Halves(line).1
    ensures r.None? <==> forall c :: c in Halves(line).0 ==> c !in Halves(line).1
  {
    var (left, right) := Halves(line);
    match FirstShared(left, right)
    case None => None
    case Some(k) => Some(right[k])
  }

  /**
   * What `part1` needs of a line it reaches: ASCII, so that `split_at` cuts
   * at half the characters, and a shared item, if there is one, that is a
   * letter, since `as_priority` is applied to it alone.
   */
  predicate Scorable(line: string)
  {
    IsAscii(line) && (LineShared(line).Some? ==> IsItem(LineShared(line).value))
  }

  /**
   * The lines `part1` reads without panicking: every line up to and
   * including the first one without a shared item is scorable. The `scan`
   * never reaches the lines after that one, so they can hold anything.
   */
  predicate Part1Reads(lines: seq<string>)
    decreases |lines|
  {
    |lines| == 0 || (Scorable(lines[0]) && (LineShared(lines[0]).Some? ==> Part1Reads(lines[1..])))
  }

  /**
   * `part1`: the `scan` adds the priority of each line's shared item, and
   * the first line without one yields `None`, which ends the scan.
   */
  function Part1(lines: seq<string>): (total: nat)
    requires Part1Reads(lines)
    ensures total <= 52 * |lines|
    decreases |lines|
  {
    if |lines| == 0 then 0
    else
      match LineShared(lines[0])
      case None => 0
      case Some(c) => Priority(c) + Part1(lines[1..])
  }

  /** Part one reads every prefix of lines it reads. */
  lemma {:induction false} Part1ReadsPrefix(lines: seq<string>, i: nat)
    requires Part1Reads(lines) && i <= |lines|
    ensures Part1Reads(lines[..i])
    decreases i
  {
    if i > 0 && LineShared(lines[0]).Some? {
      assert lines[..i][0] == lines[0];
      assert lines[..i][1..] == lines[1..][..i - 1];
      Part1ReadsPrefix(lines[1..], i - 1);
    }
  }

  /** A line with no shared item ends part one: nothing after it counts, whatever it holds. */
  lemma {:induction false} Part1StopsAtUnshared(lines: seq<string>, i: nat)
    requires Part1Reads(lines)
    requires i < |lines| && IsAscii(lines[i]) && LineShared(lines[i]).None?
    ensures Part1Reads(lines[..i])
    ensures Part1(lines) == Part1(lines[..i])
    decreases i
  {
    Part1ReadsPrefix(lines, i);
    if i > 0 && LineShared(lines[0]).Some? {
      assert lines[1..][i - 1] == lines[i];
      Part1StopsAtUnshared(lines[1..], i - 1);
      Part1PrefixStep(lines, i);
    }
  }

  /** Part one of a prefix that starts with a scored line: that line, then the rest of the prefix. */
  lemma Part1PrefixStep(lines: seq<string>, i: nat)
    requires 0 < i <= |lines| && Part1Reads(lines) && Part1Reads(lines[..i])
    requires LineShared(lines[0]).Some?
    requires Part1Reads(lines[1..][..i - 1]) && Part1(lines[1..]) == Part1(lines[1..][..i - 1])
    ensures Part1(lines) == Part1(lines[..i])
  {
    var prefix := lines[..i];
    assert prefix[0] == lines[0];
    assert prefix[1..] == lines[1..][..i - 1];
  }

  /** A line part one scores: ASCII, with a shared item that is a letter. */
  predicate Scored(line: string)
  {
    IsAscii(line) && LineShared(line).Some? && IsItem(LineShared(line).value)
  }

  /** The priority of a scored line's shared item. */
  function LinePriority(line: string): (p: nat)
    requires Scored(line)
    ensures 1 <= p <= 52
  {
    Priority(LineShared(line).value)
  }

  /** When every line has a shared item, part one is the sum of their priorities. */
  lemma {:induction false} Part1AllShared(lines: seq<string>)
    requires forall i :: 0 <= i < |lines| ==> Scored(lines[i])
    ensures Part1Reads(lines)
    ensures Part1(lines) == Sum(Map(LinePriority, lines))
    decreases |lines|
  {
    if |lines| > 0 {
      Part1AllShared(lines[1..]);
    }
  }

  /** `chunks(3)`: consecutive groups of three lines, the last one possibly shorter. */
  function Chunks(lines: seq<string>): (groups: seq<seq<string>>)
    ensures forall g :: g in groups ==> 1 <= |g| <= 3
    ensures |groups| == (|lines| + 2) / 3
    ensures forall k :: 0 <= k < |groups| ==> 3 * k < |lines| && groups[k] == lines[3 * k .. Min(3 * k + 3, |lines|)]
    decreases |lines|
  {
    if |lines| == 0 then []
    else if |lines| <= 3 then [lines]
    else
      var rest := Chunks(lines[3..]);
      ChunksCons(lines, rest);
      [lines[..3]] + rest
  }

  /** Putting the first three lines in front of the chunks of the rest keeps every chunk the slice at its index. */
  lemma ChunksCons(lines: seq<string>, rest: seq<seq<string>>)
    requires |lines| > 3
    requires forall k :: 0 <= k < |rest| ==> 3 * k < |lines| - 3 && rest[k] == lines[3..][3 * k .. Min(3 * k + 3, |lines| - 3)]
    ensures var groups := [lines[..3]] + rest;
      forall k :: 0 <= k < |groups| ==> 3 * k < |lines| && groups[k] == lines[3 * k .. Min(3 * k + 3, |lines|)]
  {
    var groups := [lines[..3]] + rest;
    forall k | 0 <= k < |groups|
      ensures 3 * k < |lines| && groups[k] == lines[3 * k .. Min(3 * k + 3, |lines|)]
    {
      if k > 0 {
        var e := Min(3 * (k - 1) + 3, |lines| - 3);
        assert groups[k] == rest[k - 1] == lines[3..][3 * (k - 1) .. e];
        SuffixSlice(lines, 3, 3 * (k - 1), e);
      }
    }
  }

  /** A slice of a suffix is a slice of the whole, shifted by the suffix's start. */
  lemma SuffixSlice<T>(s: seq<T>, d: nat, a: nat, b: nat)
    requires d <= |s| && a <= b <= |s| - d
    ensures s[d..][a..b] == s[a + d..b + d]
  {
  }

  /** The chunks, put back together, are the lines. */
  lemma {:induction false} ChunksPartition(lines: seq<string>)
    ensures Flatten(Chunks(lines)) == lines
    decreases |lines|
  {
    if |lines| > 3 {
      ChunksPartition(lines[3..]);
      assert lines == lines[..3] + lines[3..];
    }
  }

  /** The items every line of a group holds: the `reduce` of the lines' sets by intersection. */
  function Shared(group: seq<string>): (s: set<char>)
    requires |group| > 0
    ensures forall c :: c in s <==> forall i :: 0 <= i < |group| ==> c in group[i]
  {
    if |group| == 1 then Elements(group[0])
    else Shared(group[..|group| - 1]) * Elements(group[|group| - 1])
  }

  /** The first item of the group's first line that every other line also holds. */
  function FirstCommon(first: string, group: seq<string>): (r: Option<char>)
    requires |group| > 0
    ensures r.Some? ==> r.value in Shared(group)
    ensures r.None? ==> forall c :: c in first ==> c !in Shared(group)
  {
    if |first| == 0 then None
    else if first[0] in Shared(group) then Some(first[0])
    else FirstCommon(first[1..], group)
  }

  /**
   * The item a group contributes: the element of the intersection, taken
   * from `set.into_iter().next()`. The intersection has at most one element
   * in every group part two accepts, so which element comes first does not
   * matter.
   */
  function GroupItem(group: seq<string>): (r: Option<char>)
    requires |group| > 0
    requires |Shared(group)| <= 1
    ensures r.None? <==> Shared(group) == {}
    ensures r.Some? ==> Shared(group) == {r.value}
  {
    var r := FirstCommon(group[0], group);
    if r.None? then
      assert forall c :: c in Shared(group) ==> c in group[0];
      r
    else
      assert |Shared(group) - {r.value}| == 0;
      r
  }

  /**
   * A group part two can score: non-empty, with at most one common item
   * (see `GroupItem`), and that item a letter, since `as_priority` is
   * applied to it alone.
   */
  predicate ScorableGroup(group: seq<string>)
  {
    |group| > 0 && |Shared(group)| <= 1 && forall c :: c in Shared(group) ==> IsItem(c)
  }

  /** The priority a group adds to part two: none when its lines share nothing. */
  function GroupScore(group: seq<string>): (p: nat)
    requires ScorableGroup(group)
    ensures p <= 52
    ensures p == 0 <==> Shared(group) == {}
    ensures forall c :: c in Shared(group) ==> p == Priority(c)
  {
    match GroupItem(group)
    case None => 0
    case Some(c) => Priority(c)
  }

  /** Sum of the group scores. */
  function GroupsTotal(groups: seq<seq<string>>): (total: nat)
    requires forall g :: g in groups ==> ScorableGroup(g)
    ensures total <= 52 * |groups|
  {
    if |groups| == 0 then 0 else GroupScore(groups[0]) + GroupsTotal(groups[1..])
  }

  /** The total over groups is the sum of the groups' scores. */
  lemma {:induction false} GroupsTotalIsSum(groups: seq<seq<string>>)
    requires forall g :: g in groups ==> ScorableGroup(g)
    ensures GroupsTotal(groups) == Sum(Map(GroupScore, groups))
  {
    if |groups| > 0 {
      GroupsTotalIsSum(groups[1..]);
    }
  }

  /**
   * `part2`: the sum, over the groups `chunks(3)` forms, of the priority of
   * the item common to the group's lines; a group sharing nothing adds 0.
   */
  function Part2(lines: seq<string>): (total: nat)
    requires forall g :: g in Chunks(lines) ==> ScorableGroup(g)
    ensures total <= 52 * ((|lines| + 2) / 3)
    ensures total == Sum(Map(GroupScore, Chunks(lines)))
  {
    GroupsTotalIsSum(Chunks(lines));
    GroupsTotal(Chunks(lines))
  }
}
