/**
 * Day 2, rock paper scissors: a strategy guide of rounds is scored, reading
 * the second column either as the sign to play (part one) or as the outcome
 * to reach (part two).
 */
module RockPaperScissors {
  import opened Common

  datatype Sign = Rock | Paper | Scissor
  datatype Outcome = Win | Draw | Lose

  /** `Sign::beats`: the outcome of playing `self` against `other`. */
  function Beats(self: Sign, other: Sign): (o: Outcome)
    ensures o == Draw <==> self == other
  {
    if self == other then Draw
    else
      match (self, other)
      case (Rock, Scissor) => Win
      case (Scissor, Paper) => Win
      case (Paper, Rock) => Win
      case _ => Lose
  }

  /** The discriminant `*sign as usize`: declaration order. */
  function Index(s: Sign): (i: nat)
    ensures i < 3
  {
    match s
    case Rock => 0
    case Paper => 1
    case Scissor => 2
  }

  /** `From<usize> for Sign`; other values reach `unreachable!()`. */
  function FromIndex(x: nat): (s: Sign)
    requires x < 3
    ensures Index(s) == x
  {
    match x
    case 0 => Rock
    case 1 => Paper
    case 2 => Scissor
  }

  /** `FromIndex` inverts the discriminant cast. */
  lemma FromIndexInverts(s: Sign)
    ensures FromIndex(Index(s)) == s
  {
  }

  /**
   * `Sign::new_from_outcome`: the sign to play against `other` for
   * `outcome`. A win is the next sign in declaration order, a loss the
   * previous one (`checked_sub(1).unwrap_or(2)` wraps Rock to Scissor).
   */
  function NewFromOutcome(other: Sign, outcome: Outcome): (s: Sign)
    ensures Beats(s, other) == outcome
  {
    match outcome
    case Draw => other
    case Win => FromIndex((Index(other) + 1) % 3)
    case Lose => FromIndex(if Index(other) == 0 then 2 else Index(other) - 1)
  }

  /** Winning is the cyclic successor relation on the discriminants. */
  lemma WinIsSuccessor(a: Sign, b: Sign)
    ensures Beats(a, b) == Win <==> Index(a) == (Index(b) + 1) % 3
  {
  }

  /** `a` beats `b` exactly when `b` loses to `a`. */
  lemma WinLoseDual(a: Sign, b: Sign)
    ensures Beats(a, b) == Win <==> Beats(b, a) == Lose
  {
  }

  /** The sign `new_from_outcome` chooses is the only one giving that outcome. */
  lemma NewFromOutcomeUnique(other: Sign, outcome: Outcome, s: Sign)
    requires Beats(s, other) == outcome
    ensures s == NewFromOutcome(other, outcome)
  {
  }

  /** `as_points` for a sign. */
  function SignPoints(s: Sign): (p: nat)
    ensures 1 <= p <= 3
    ensures p == Index(s) + 1
  {
    match s
    case Rock => 1
    case Paper => 2
    case Scissor => 3
  }

  /** `as_points` for an outcome. */
  function OutcomePoints(o: Outcome): (p: nat)
    ensures p == 0 || p == 3 || p == 6
    ensures p == 0 <==> o == Lose
    ensures p == 6 <==> o == Win
  {
    match o
    case Lose => 0
    case Draw => 3
    case Win => 6
  }

  predicate IsSignByte(c: char)
  {
    c in "ABCXYZ"
  }

  predicate IsOutcomeByte(c: char)
  {
    c in "XYZ"
  }

  /** `From<u8> for Sign`: both columns' letters; anything else is `unreachable!()`. */
  function SignFromByte(c: char): (s: Sign)
    requires IsSignByte(c)
    ensures Index(s) == if c <= 'C' then c as int - 'A' as int else c as int - 'X' as int
  {
    match c
    case 'A' => Rock
    case 'X' => Rock
    case 'B' => Paper
    case 'Y' => Paper
    case 'C' => Scissor
    case 'Z' => Scissor
  }

  /** `From<u8> for Outcome`. */
  function OutcomeFromByte(c: char): (o: Outcome)
    requires IsOutcomeByte(c)
    ensures OutcomePoints(o) == 3 * (c as int - 'X' as int)
  {
    match c
    case 'X' => Lose
    case 'Y' => Draw
    case 'Z' => Win
  }

  /** The letters of each column are the signs in declaration order. */
  lemma SignLettersInOrder(c: char)
    requires IsSignByte(c)
    ensures 'A' <= c <= 'C' ==> SignFromByte(c) == FromIndex(c as int - 'A' as int)
    ensures 'X' <= c <= 'Z' ==> SignFromByte(c) == FromIndex(c as int - 'X' as int)
  {
  }

  /** Reading the second column as an outcome orders it from worst to best. */
  lemma OutcomeLettersByPoints(c: char, d: char)
    requires IsOutcomeByte(c) && IsOutcomeByte(d)
    ensures c < d <==> OutcomePoints(OutcomeFromByte(c)) < OutcomePoints(OutcomeFromByte(d))
  {
  }

  /**
   * `generator` (part one): bytes 0 and 2 of each line, as signs. They are
   * characters 0 and 2 because the first two characters are ASCII; otherwise
   * byte 2 is part of a multi-byte character, which `From<u8>` rejects.
   */
  function Generator(lines: seq<string>): (rounds: seq<(Sign, Sign)>)
    requires forall i :: 0 <= i < |lines| ==>
               |lines[i]| >= 3 && lines[i][1] as int < 128 && IsSignByte(lines[i][0]) && IsSignByte(lines[i][2])
    ensures |rounds| == |lines|
    ensures forall i :: 0 <= i < |lines| ==>
              rounds[i] == (SignFromByte(lines[i][0]), SignFromByte(lines[i][2]))
  {
    if |lines| == 0 then []
    else [(SignFromByte(lines[0][0]), SignFromByte(lines[0][2]))] + Generator(lines[1..])
  }

  /** `generator2` (part two): bytes 0 and 2 of each line, as a sign and an outcome; see `Generator`. */
  function Generator2(lines: seq<string>): (rounds: seq<(Sign, Outcome)>)
    requires forall i :: 0 <= i < |lines| ==>
               |lines[i]| >= 3 && lines[i][1] as int < 128 && IsSignByte(lines[i][0]) && IsOutcomeByte(lines[i][2])
    ensures |rounds| == |lines|
    ensures forall i :: 0 <= i < |lines| ==>
              rounds[i] == (SignFromByte(lines[i][0]), OutcomeFromByte(lines[i][2]))
  {
    if |lines| == 0 then []
    else [(SignFromByte(lines[0][0]), OutcomeFromByte(lines[0][2]))] + Generator2(lines[1..])
  }

  /** The score of one part-one round: my sign's points plus the outcome's. */
  function RoundScore(other: Sign, mine: Sign): (p: nat)
    ensures 1 <= p <= 9
  {
    SignPoints(mine) + OutcomePoints(Beats(mine, other))
  }

  /** `part1`: the total score when the second column is my sign. */
  function Part1(rounds: seq<(Sign, Sign)>): (total: nat)
    ensures |rounds| <= total <= 9 * |rounds|
  {
    if |rounds| == 0 then 0
    else RoundScore(rounds[0].0, rounds[0].1) + Part1(rounds[1..])
  }

  /** `part2`: the total score when the second column is the outcome to reach. */
  function Part2(rounds: seq<(Sign, Outcome)>): (total: nat)
    ensures |rounds| <= total <= 9 * |rounds|
  {
    if |rounds| == 0 then 0
    else
      var (other, outcome) := rounds[0];
      OutcomePoints(outcome) + SignPoints(NewFromOutcome(other, outcome)) + Part2(rounds[1..])
  }

  /** The sign part two plays in each round. */
  function Choose(rounds: seq<(Sign, Outcome)>): (plays: seq<(Sign, Sign)>)
    ensures |plays| == |rounds|
    ensures forall i :: 0 <= i < |rounds| ==>
              plays[i].0 == rounds[i].0 && Beats(plays[i].1, plays[i].0) == rounds[i].1
  {
    if |rounds| == 0 then []
    else [(rounds[0].0, NewFromOutcome(rounds[0].0, rounds[0].1))] + Choose(rounds[1..])
  }

  /** Part two scores exactly as part one would on the signs it chooses. */
  lemma {:induction false} Part2IsPart1OfChoices(rounds: seq<(Sign, Outcome)>)
    ensures Part2(rounds) == Part1(Choose(rounds))
  {
    if |rounds| > 0 {
      assert Choose(rounds)[1..] == Choose(rounds[1..]);
      Part2IsPart1OfChoices(rounds[1..]);
    }
  }
}
