/**
 * Day 5, supply stacks: nine stacks of crates are rearranged by `move a from
 * s to d` instructions, moving crates one at a time (part one) or as a
 * block (part two); the answer is the top crate of each stack.
 */
module SupplyStacks {
  import opened Common
  import opened Numbers

  /** A stack of crates, bottom first; the top crate is the last element. */
  type Stack = seq<char>

  /** The generator always builds `[Vec<char>; 9]`. */
  const STACK_COUNT: nat := 9

  /** A parsed instruction; `source` and `dest` are already 0-based. */
  datatype Instruction = Instruction(amount: nat, source: nat, dest: nat)

  // ---------------------------------------------------------------------------
  // Parsing an instruction line
  // ---------------------------------------------------------------------------

  /** The bytes `split_ascii_whitespace` splits at. */
  predicate IsAsciiWhitespace(c: char)
  {
    c == ' ' || c == '\t' || c == '\n' || c == '\r' || c == '\U{000C}'
  }

  predicate IsWord(w: string)
  {
    |w| > 0 && forall i :: 0 <= i < |w| ==> !IsAsciiWhitespace(w[i])
  }

  /** Length of the word at the start of `s`: up to the first whitespace. */
  function WordEnd(s: string): (k: nat)
    ensures k <= |s|
    ensures forall i :: 0 <= i < k ==> !IsAsciiWhitespace(s[i])
    ensures k < |s| ==> IsAsciiWhitespace(s[k])
  {
    if |s| == 0 || IsAsciiWhitespace(s[0]) then 0 else 1 + WordEnd(s[1..])
  }

  /** `str::split_ascii_whitespace`: the maximal runs of non-whitespace, in order. */
  function Words(s: string): (ws: seq<string>)
    ensures forall i :: 0 <= i < |ws| ==> IsWord(ws[i])
    decreases |s|
  {
    if |s| == 0 then []
    else if IsAsciiWhitespace(s[0]) then Words(s[1..])
    else
      var k := WordEnd(s);
      [s[..k]] + Words(s[k..])
  }

  /** A word followed by a space and more text splits off as the first word. */
  lemma WordsOfWordThenSpace(w: string, rest: string)
    requires IsWord(w)
    ensures Words(w + " " + rest) == [w] + Words(rest)
  {
    var s := w + " " + rest;
    WordEndOfWord(w, " " + rest);
    assert s[..|w|] == w;
    assert s[|w|..] == " " + rest;
    assert (" " + rest)[1..] == rest;
  }

  /** A single word splits into itself. */
  lemma WordsOfWord(w: string)
    requires IsWord(w)
    ensures Words(w) == [w]
  {
    WordEndOfWord(w, "");
    assert w + "" == w;
    assert w[..|w|] == w;
  }

  /** The first word of `w + rest` is `w` when `rest` starts with whitespace or is empty. */
  lemma {:induction false} WordEndOfWord(w: string, rest: string)
    requires forall i :: 0 <= i < |w| ==> !IsAsciiWhitespace(w[i])
    requires |rest| == 0 || IsAsciiWhitespace(rest[0])
    ensures WordEnd(w + rest) == |w|
  {
    if |w| > 0 {
      assert (w + rest)[1..] == w[1..] + rest;
      WordEndOfWord(w[1..], rest);
    } else {
      assert w + rest == rest;
    }
  }

  /** `flat_map(str::parse::<usize>)`: the words that are numbers, in order. */
  function NumbersIn(words: seq<string>): (ns: seq<nat>)
    ensures |ns| <= |words|
    ensures forall i :: 0 <= i < |ns| ==> ns[i] <= USIZE_MAX
  {
    if |words| == 0 then []
    else
      match ParseUnsigned(words[0], USIZE_MAX)
      case Some(n) => [n] + NumbersIn(words[1..])
      case None => NumbersIn(words[1..])
  }

  /**
   * `Instruction::from_str` needs three numbers (the `unwrap`s) and 1-based
   * stack numbers (the `- 1` on `usize`).
   */
  predicate IsInstructionLine(s: string)
  {
    var ns := NumbersIn(Words(s));
    |ns| >= 3 && ns[1] >= 1 && ns[2] >= 1
  }

  /** `Instruction::from_str`: the first three numbers, stack numbers made 0-based. */
  function ParseInstruction(s: string): (ins: Instruction)
    requires IsInstructionLine(s)
    ensures ins.amount <= USIZE_MAX && ins.source < USIZE_MAX && ins.dest < USIZE_MAX
    ensures NumbersIn(Words(s))[..3] == [ins.amount, ins.source + 1, ins.dest + 1]
  {
    var ns := NumbersIn(Words(s));
    Instruction(ns[0], ns[1] - 1, ns[2] - 1)
  }

  /** A decimal rendering is a word. */
  lemma ShowNatIsWord(n: nat)
    ensures IsWord(ShowNat(n))
  {
    var w := ShowNat(n);
    assert forall i :: 0 <= i < |w| ==> IsDigit(w[i]);
  }

  /** Words joined by single spaces, as an instruction line is written. */
  function JoinSpaces(ws: seq<string>): (line: string)
    requires |ws| > 0
    ensures |line| >= |ws| - 1
    decreases |ws|
  {
    if |ws| == 1 then ws[0] else ws[0] + " " + JoinSpaces(ws[1..])
  }

  /** Words joined by single spaces split back into those words. */
  lemma {:induction false} WordsOfJoin(ws: seq<string>)
    requires |ws| > 0 && forall i :: 0 <= i < |ws| ==> IsWord(ws[i])
    ensures Words(JoinSpaces(ws)) == ws
    decreases |ws|
  {
    if |ws| == 1 {
      WordsOfWord(ws[0]);
      assert ws == [ws[0]];
    } else {
      WordsOfJoin(ws[1..]);
      WordsOfWordThenSpace(ws[0], JoinSpaces(ws[1..]));
      assert ws == [ws[0]] + ws[1..];
    }
  }

  /** Of those words, exactly the three renderings are numbers. */
  lemma InstructionNumbers(a: nat, s: nat, d: nat)
    requires a <= USIZE_MAX && s <= USIZE_MAX && d <= USIZE_MAX
    ensures NumbersIn(["move", ShowNat(a), "from", ShowNat(s), "to", ShowNat(d)]) == [a, s, d]
  {
    var ws := ["move", ShowNat(a), "from", ShowNat(s), "to", ShowNat(d)];
    ParseShowUnsigned(a, USIZE_MAX);
    ParseShowUnsigned(s, USIZE_MAX);
    ParseShowUnsigned(d, USIZE_MAX);
    assert ParseUnsigned("move", USIZE_MAX).None? by { assert !IsDigit('m'); }
    assert ParseUnsigned("from", USIZE_MAX).None? by { assert !IsDigit('f'); }
    assert ParseUnsigned("to", USIZE_MAX).None? by { assert !IsDigit('t'); }
    assert NumbersIn(ws[6..]) == [];
    assert NumbersIn(ws[5..]) == [d];
    assert NumbersIn(ws[4..]) == [d];
    assert NumbersIn(ws[3..]) == [s, d];
    assert NumbersIn(ws[2..]) == [s, d];
    assert NumbersIn(ws[1..]) == [a, s, d];
  }

  /** An instruction line is six words joined by single spaces. */
  lemma InstructionLineShape(a: string, src: string, dst: string)
    ensures "move " + a + " from " + src + " to " + dst
            == JoinSpaces(["move", a, "from", src, "to", dst])
  {
    var ws := ["move", a, "from", src, "to", dst];
    assert JoinSpaces(ws[5..]) == dst by { assert ws[5..] == [dst]; }
    assert JoinSpaces(ws[4..]) == "to" + " " + dst by { assert ws[4..][1..] == ws[5..]; }
    assert JoinSpaces(ws[3..]) == src + " " + ("to" + " " + dst) by { assert ws[3..][1..] == ws[4..]; }
    assert JoinSpaces(ws[2..]) == "from" + " " + (src + " " + ("to" + " " + dst)) by { assert ws[2..][1..] == ws[3..]; }
    assert JoinSpaces(ws[1..]) == a + " " + ("from" + " " + (src + " " + ("to" + " " + dst))) by { assert ws[1..][1..] == ws[2..]; }
    assert "move " == "move" + " ";
    assert " from " == " " + "from" + " ";
    assert " to " == " " + "to" + " ";
  }

  /** The puzzle's instruction lines read back as the instruction they describe. */
  lemma ParseInstructionRoundTrip(ins: Instruction)
    requires ins.amount <= USIZE_MAX && ins.source < USIZE_MAX && ins.dest < USIZE_MAX
    ensures var line := "move " + ShowNat(ins.amount) + " from " + ShowNat(ins.source + 1)
                        + " to " + ShowNat(ins.dest + 1);
            IsInstructionLine(line) && ParseInstruction(line) == ins
  {
    ShowNatIsWord(ins.amount);
    ShowNatIsWord(ins.source + 1);
    ShowNatIsWord(ins.dest + 1);
    var a, src, dst := ShowNat(ins.amount), ShowNat(ins.source + 1), ShowNat(ins.dest + 1);
    InstructionLineShape(a, src, dst);
    assert IsWord("move") && IsWord("from") && IsWord("to");
    var ws := ["move", a, "from", src, "to", dst];
    assert forall i :: 0 <= i < |ws| ==> IsWord(ws[i]);
    WordsOfJoin(ws);
    InstructionNumbers(ins.amount, ins.source + 1, ins.dest + 1);
  }

  // ---------------------------------------------------------------------------
  // Building the stacks from the drawing
  // ---------------------------------------------------------------------------

  /** `is_ascii_alphabetic`. */
  predicate IsAsciiAlphabetic(c: char)
  {
    'a' <= c <= 'z' || 'A' <= c <= 'Z'
  }

  /**
   * The crate label in chunk `i` of a drawing line, if any. On an ASCII line
   * character `4 * i + 1` is byte 1 of the `i`-th 4-byte chunk.
   */
  function CrateIn(line: string, i: nat): (r: seq<char>)
    ensures |r| <= 1
  {
    if 4 * i + 1 < |line| && IsAsciiAlphabetic(line[4 * i + 1]) then [line[4 * i + 1]] else []
  }

  /**
   * A drawing line the generator handles without panicking: no 1-byte last
   * chunk (`chunk[1]` would be out of bounds), and no crate beyond the ninth
   * stack. The line is ASCII, so that its characters are its bytes.
   */
  predicate IsDrawingLine(line: string)
  {
    && (forall j :: 0 <= j < |line| ==> line[j] as int < 128)
    && |line| % 4 != 1
    && forall i :: STACK_COUNT <= i < |line| && 4 * i + 1 < |line| ==> !IsAsciiAlphabetic(line[4 * i + 1])
  }

  /** The stacks before any crate is placed. */
  function EmptyStacks(): (stacks: seq<Stack>)
    ensures |stacks| == STACK_COUNT
    ensures forall i :: 0 <= i < STACK_COUNT ==> stacks[i] == []
  {
    seq(STACK_COUNT, _ => [])
  }

  /** The fold over one line's `(i, crate)` pairs, chunks `from` onward, pushing each crate onto stack `i`. */
  function PushLine(stacks: seq<Stack>, line: string, from: nat): (r: seq<Stack>)
    requires |stacks| == STACK_COUNT && IsDrawingLine(line)
    ensures |r| == STACK_COUNT
    ensures forall i :: 0 <= i < STACK_COUNT ==>
              r[i] == stacks[i] + (if i >= from then CrateIn(line, i) else [])
    decreases |line| - 4 * from
  {
    if 4 * from + 1 >= |line| then
      assert forall i :: i >= from ==> CrateIn(line, i) == [];
      stacks
    else
      var next := if from < STACK_COUNT && IsAsciiAlphabetic(line[4 * from + 1])
                  then stacks[from := stacks[from] + [line[4 * from + 1]]]
                  else stacks;
      PushLine(next, line, from + 1)
  }

  /**
   * The stacks built from drawing lines given bottom line first (the
   * generator's `.lines().rev()`).
   */
  function BuildStacks(bottomUp: seq<string>): (stacks: seq<Stack>)
    requires forall j :: 0 <= j < |bottomUp| ==> IsDrawingLine(bottomUp[j])
    ensures |stacks| == STACK_COUNT
  {
    if |bottomUp| == 0 then EmptyStacks()
    else PushLine(BuildStacks(bottomUp[..|bottomUp| - 1]), bottomUp[|bottomUp| - 1], 0)
  }

  /** Stack `i` as the drawing shows it: the crates of column `i`, bottom line first. */
  function Column(bottomUp: seq<string>, i: nat): Stack
  {
    if |bottomUp| == 0 then [] else CrateIn(bottomUp[0], i) + Column(bottomUp[1..], i)
  }

  lemma {:induction false} ColumnSnoc(lines: seq<string>, i: nat)
    requires |lines| > 0
    ensures Column(lines, i) == Column(lines[..|lines| - 1], i) + CrateIn(lines[|lines| - 1], i)
  {
    if |lines| > 1 {
      assert lines[1..][..|lines[1..]| - 1] == lines[..|lines| - 1][1..];
      ColumnSnoc(lines[1..], i);
    }
  }

  /** Every stack built is its column of the drawing, read bottom-up. */
  lemma {:induction false} BuildStacksAreColumns(bottomUp: seq<string>)
    requires forall j :: 0 <= j < |bottomUp| ==> IsDrawingLine(bottomUp[j])
    ensures forall i :: 0 <= i < STACK_COUNT ==> BuildStacks(bottomUp)[i] == Column(bottomUp, i)
  {
    if |bottomUp| > 0 {
      BuildStacksAreColumns(bottomUp[..|bottomUp| - 1]);
      forall i | 0 <= i < STACK_COUNT
        ensures BuildStacks(bottomUp)[i] == Column(bottomUp, i)
      {
        ColumnSnoc(bottomUp, i);
      }
    }
  }

  function Reverse<T>(s: seq<T>): (r: seq<T>)
    ensures |r| == |s|
  {
    if |s| == 0 then [] else Reverse(s[1..]) + [s[0]]
  }

  /** Element `i` of the reversal is element `i` from the end. */
  lemma {:induction false} ReverseAt<T>(s: seq<T>)
    ensures forall i :: 0 <= i < |s| ==> Reverse(s)[i] == s[|s| - 1 - i]
  {
    if |s| > 0 {
      ReverseAt(s[1..]);
    }
  }

  /** The drawing lines that hold crates: those containing `[`. */
  function CrateLines(lines: seq<string>): (r: seq<string>)
    ensures forall j :: 0 <= j < |r| ==> '[' in r[j]
    ensures forall l :: l in r ==> l in lines
  {
    if |lines| == 0 then []
    else if '[' in lines[0] then [lines[0]] + CrateLines(lines[1..])
    else CrateLines(lines[1..])
  }

  /**
   * `generator`, stacks part: the drawing's lines reversed (so the bottom
   * line is pushed first), those without `[` dropped. Only the lines that
   * hold a `[` are chunked, so only they must be drawing lines.
   */
  function Generator(drawing: seq<string>): (stacks: seq<Stack>)
    requires forall l :: l in drawing && '[' in l ==> IsDrawingLine(l)
    ensures |stacks| == STACK_COUNT
    ensures forall i :: 0 <= i < STACK_COUNT ==>
              stacks[i] == Column(Reverse(CrateLines(drawing)), i)
  {
    var bottomUp := Reverse(CrateLines(drawing));
    ReverseAt(CrateLines(drawing));
    assert forall j :: 0 <= j < |bottomUp| ==> bottomUp[j] in drawing && '[' in bottomUp[j];
    BuildStacksAreColumns(bottomUp);
    BuildStacks(bottomUp)
  }

  // ---------------------------------------------------------------------------
  // Moving crates
  // ---------------------------------------------------------------------------

  function TotalCrates(stacks: seq<Stack>): nat
  {
    if |stacks| == 0 then 0 else |stacks[0]| + TotalCrates(stacks[1..])
  }

  /** Replacing one stack changes the total by the difference in its height. */
  lemma {:induction false} TotalCratesUpdate(stacks: seq<Stack>, i: nat, s: Stack)
    requires i < |stacks|
    ensures TotalCrates(stacks[i := s]) + |stacks[i]| == TotalCrates(stacks) + |s|
  {
    if i > 0 {
      assert stacks[i := s][1..] == stacks[1..][i - 1 := s];
      TotalCratesUpdate(stacks[1..], i - 1, s);
    }
  }

  /**
   * The indexing a move does without panicking: the source is indexed only
   * when `amount > 0`, and the destination only once a crate was popped.
   */
  predicate ValidMove(stacks: seq<Stack>, ins: Instruction)
  {
    ins.amount > 0 ==> ins.source < |stacks| && (|stacks[ins.source]| > 0 ==> ins.dest < |stacks|)
  }

  /** How many crates a move actually transfers: popping an empty stack does nothing. */
  function Moved(stacks: seq<Stack>, ins: Instruction): (k: nat)
    requires ValidMove(stacks, ins)
    ensures k > 0 ==> ins.source < |stacks| && ins.dest < |stacks| && k <= |stacks[ins.source]|
  {
    if ins.amount == 0 then 0 else Min(ins.amount, |stacks[ins.source]|)
  }

  /** `stacks[source].pop().map(|c| stacks[dest].push(c))`. */
  function PopPush(stacks: seq<Stack>, source: nat, dest: nat): (r: seq<Stack>)
    requires source < |stacks| && (|stacks[source]| > 0 ==> dest < |stacks|)
    ensures |r| == |stacks|
    ensures |stacks[source]| == 0 || source == dest ==> r == stacks
    ensures |stacks[source]| > 0 && source != dest ==>
              var s := stacks[source];
              r[source] == s[..|s| - 1] && r[dest] == stacks[dest] + [s[|s| - 1]]
    ensures forall i :: 0 <= i < |stacks| && i != source && i != dest ==> r[i] == stacks[i]
  {
    var s := stacks[source];
    if |s| == 0 then stacks
    else
      var popped := stacks[source := s[..|s| - 1]];
      assert s[..|s| - 1] + [s[|s| - 1]] == s;
      popped[dest := popped[dest] + [s[|s| - 1]]]
  }

  /**
   * Part one's move: `amount` times pop the source and push onto the
   * destination. The moved crates land in reverse order.
   */
  function MoveSingly(stacks: seq<Stack>, ins: Instruction): (r: seq<Stack>)
    requires ValidMove(stacks, ins)
    ensures |r| == |stacks|
    ensures Moved(stacks, ins) == 0 || ins.source == ins.dest ==> r == stacks
    ensures Moved(stacks, ins) > 0 && ins.source != ins.dest ==>
              var s, k := stacks[ins.source], Moved(stacks, ins);
              && r[ins.source] == s[..|s| - k]
              && r[ins.dest] == stacks[ins.dest] + Reverse(s[|s| - k..])
    ensures forall i :: 0 <= i < |stacks| && i != ins.source && i != ins.dest ==> r[i] == stacks[i]
    decreases ins.amount
  {
    if ins.amount == 0 then stacks
    else
      var next := PopPush(stacks, ins.source, ins.dest);
      var r := MoveSingly(next, ins.(amount := ins.amount - 1));
      MoveSinglyStep(stacks, ins, next, r);
      r
  }

  /** One pop-push followed by the remaining `amount - 1` pops and pushes. */
  lemma MoveSinglyStep(stacks: seq<Stack>, ins: Instruction, next: seq<Stack>, r: seq<Stack>)
    requires ValidMove(stacks, ins) && ins.amount > 0
    requires next == PopPush(stacks, ins.source, ins.dest) && |r| == |stacks|
    requires ValidMove(next, ins.(amount := ins.amount - 1))
    requires var rest := ins.(amount := ins.amount - 1);
             && (Moved(next, rest) == 0 || ins.source == ins.dest ==> r == next)
             && (Moved(next, rest) > 0 && ins.source != ins.dest ==>
                   var s, k := next[ins.source], Moved(next, rest);
                   && r[ins.source] == s[..|s| - k]
                   && r[ins.dest] == next[ins.dest] + Reverse(s[|s| - k..]))
    ensures Moved(stacks, ins) == 0 || ins.source == ins.dest ==> r == stacks
    ensures Moved(stacks, ins) > 0 && ins.source != ins.dest ==>
              var s, k := stacks[ins.source], Moved(stacks, ins);
              && r[ins.source] == s[..|s| - k]
              && r[ins.dest] == stacks[ins.dest] + Reverse(s[|s| - k..])
  {
    var s := stacks[ins.source];
    var rest := ins.(amount := ins.amount - 1);
    if |s| == 0 || ins.source == ins.dest {
      assert next == stacks;
    } else {
      var k := Moved(stacks, ins);
      assert next[ins.source] == s[..|s| - 1];
      assert next[ins.dest] == stacks[ins.dest] + [s[|s| - 1]];
      assert Moved(next, rest) == k - 1;
      if k == 1 {
        ReverseShort(s[|s| - 1..]);
      } else {
        PopThenPops(s, stacks[ins.dest], k, r[ins.source], r[ins.dest]);
      }
    }
  }

  /** The top crate moved first, then `k - 1` more: `k` crates moved, reversed. */
  lemma PopThenPops(s: Stack, d: Stack, k: nat, rs: Stack, rd: Stack)
    requires 1 < k <= |s|
    requires var s' := s[..|s| - 1];
             && rs == s'[..|s'| - (k - 1)]
             && rd == d + [s[|s| - 1]] + Reverse(s'[|s'| - (k - 1)..])
    ensures rs == s[..|s| - k] && rd == d + Reverse(s[|s| - k..])
  {
    var s' := s[..|s| - 1];
    assert s'[..|s'| - (k - 1)] == s[..|s| - k];
    assert s[|s| - k..] == s'[|s'| - (k - 1)..] + [s[|s| - 1]];
    ReverseSnoc(s'[|s'| - (k - 1)..], s[|s| - 1]);
  }

  lemma ReverseSnoc<T>(s: seq<T>, x: T)
    ensures Reverse(s + [x]) == [x] + Reverse(s)
  {
    ReverseAt(s + [x]);
    ReverseAt(s);
  }

  /** `stacks[source].pop().map(|c| temp.push(c))`, `amount` times. */
  function PopInto(stacks: seq<Stack>, source: nat, temp: seq<char>, amount: nat): (r: (seq<Stack>, seq<char>))
    requires source < |stacks|
    ensures |r.0| == |stacks|
    ensures var s, k := stacks[source], Min(amount, |stacks[source]|);
            && r.0 == stacks[source := s[..|s| - k]]
            && r.1 == temp + Reverse(s[|s| - k..])
    decreases amount
  {
    var s := stacks[source];
    if amount == 0 || |s| == 0 then
      assert s[..|s|] == s && s[|s|..] == [];
      assert stacks[source := s] == stacks;
      (stacks, temp)
    else
      var r := PopInto(stacks[source := s[..|s| - 1]], source, temp + [s[|s| - 1]], amount - 1);
      PopIntoStep(stacks, source, temp, amount, r);
      r
  }

  /** One pop into `temp` followed by the remaining `amount - 1` pops. */
  lemma PopIntoStep(stacks: seq<Stack>, source: nat, temp: seq<char>, amount: nat, r: (seq<Stack>, seq<char>))
    requires source < |stacks| && amount > 0 && |stacks[source]| > 0
    requires var s := stacks[source];
             var s', k' := s[..|s| - 1], Min(amount - 1, |s| - 1);
             && r.0 == stacks[source := s'][source := s'[..|s'| - k']]
             && r.1 == temp + [s[|s| - 1]] + Reverse(s'[|s'| - k'..])
    ensures var s, k := stacks[source], Min(amount, |stacks[source]|);
            && r.0 == stacks[source := s[..|s| - k]]
            && r.1 == temp + Reverse(s[|s| - k..])
  {
    var s, k := stacks[source], Min(amount, |stacks[source]|);
    var s' := s[..|s| - 1];
    assert s'[..|s'| - (k - 1)] == s[..|s| - k];
    assert s[|s| - k..] == s'[|s'| - (k - 1)..] + [s[|s| - 1]];
    ReverseSnoc(s'[|s'| - (k - 1)..], s[|s| - 1]);
  }

  /**
   * Part two's move: pop up to `amount` crates into `temp`, then push `temp`
   * reversed onto the destination. The moved block keeps its order.
   */
  function MoveBlock(stacks: seq<Stack>, ins: Instruction): (r: seq<Stack>)
    requires ValidMove(stacks, ins)
    ensures |r| == |stacks|
    ensures Moved(stacks, ins) == 0 || ins.source == ins.dest ==> r == stacks
    ensures Moved(stacks, ins) > 0 && ins.source != ins.dest ==>
              var s, k := stacks[ins.source], Moved(stacks, ins);
              && r[ins.source] == s[..|s| - k]
              && r[ins.dest] == stacks[ins.dest] + s[|s| - k..]
    ensures forall i :: 0 <= i < |stacks| && i != ins.source && i != ins.dest ==> r[i] == stacks[i]
  {
    if ins.amount == 0 then stacks
    else
      var popped := PopInto(stacks, ins.source, [], ins.amount);
      var s, k := stacks[ins.source], Moved(stacks, ins);
      BlockPopped(stacks, ins.source, ins.amount);
      if |popped.1| == 0 then
        // `temp` is empty, so `for_each` never indexes the destination.
        assert s[..|s| - k] == s;
        popped.0
      else
        assert s == s[..|s| - k] + s[|s| - k..];
        MoveBlockEffect(stacks, ins.source, ins.dest, s[..|s| - k], s[|s| - k..]);
        popped.0[ins.dest := popped.0[ins.dest] + Reverse(popped.1)]
  }

  /** Popping into an empty `temp` leaves the block reversed in it; reversing it again restores the block. */
  lemma BlockPopped(stacks: seq<Stack>, source: nat, amount: nat)
    requires source < |stacks|
    ensures var s, k := stacks[source], Min(amount, |stacks[source]|);
            var popped := PopInto(stacks, source, [], amount);
            popped.0 == stacks[source := s[..|s| - k]] && Reverse(popped.1) == s[|s| - k..]
  {
    var s, k := stacks[source], Min(amount, |stacks[source]|);
    var block := s[|s| - k..];
    assert [] + Reverse(block) == Reverse(block);
    ReverseReverse(block);
  }

  /** Taking `block` off the top of the source and putting it on the destination. */
  lemma MoveBlockEffect(stacks: seq<Stack>, source: nat, dest: nat, rest: Stack, block: seq<char>)
    requires source < |stacks| && dest < |stacks| && stacks[source] == rest + block
    ensures var r := stacks[source := rest][dest := stacks[source := rest][dest] + block];
            && |r| == |stacks|
            && (source == dest ==> r == stacks)
            && (source != dest ==> r[source] == rest && r[dest] == stacks[dest] + block)
            && (forall i :: 0 <= i < |stacks| && i != source && i != dest ==> r[i] == stacks[i])
  {
  }

  lemma ReverseReverse<T>(s: seq<T>)
    ensures Reverse(Reverse(s)) == s
  {
    ReverseAt(s);
    ReverseAt(Reverse(s));
  }

  /** Part one's move never creates or destroys crates. */
  lemma MoveSinglyConserves(stacks: seq<Stack>, ins: Instruction)
    requires ValidMove(stacks, ins)
    ensures TotalCrates(MoveSingly(stacks, ins)) == TotalCrates(stacks)
  {
    MoveConserves(stacks, ins, MoveSingly(stacks, ins));
  }

  /** Part two's move never creates or destroys crates. */
  lemma MoveBlockConserves(stacks: seq<Stack>, ins: Instruction)
    requires ValidMove(stacks, ins)
    ensures TotalCrates(MoveBlock(stacks, ins)) == TotalCrates(stacks)
  {
    MoveConserves(stacks, ins, MoveBlock(stacks, ins));
  }

  /** Any result that moves `k` crates from source to destination keeps the total. */
  lemma MoveConserves(stacks: seq<Stack>, ins: Instruction, r: seq<Stack>)
    requires ValidMove(stacks, ins) && |r| == |stacks|
    requires Moved(stacks, ins) == 0 || ins.source == ins.dest ==> r == stacks
    requires Moved(stacks, ins) > 0 && ins.source != ins.dest ==>
               var k := Moved(stacks, ins);
               && |r[ins.source]| == |stacks[ins.source]| - k
               && |r[ins.dest]| == |stacks[ins.dest]| + k
    requires forall i :: 0 <= i < |stacks| && i != ins.source && i != ins.dest ==> r[i] == stacks[i]
    ensures TotalCrates(r) == TotalCrates(stacks)
  {
    if Moved(stacks, ins) > 0 && ins.source != ins.dest {
      var mid := stacks[ins.source := r[ins.source]];
      TotalCratesUpdate(stacks, ins.source, r[ins.source]);
      TotalCratesUpdate(mid, ins.dest, r[ins.dest]);
      assert mid[ins.dest := r[ins.dest]] == r;
    }
  }

  /** Moving a single crate is the same under both move kinds. */
  lemma SingleCrateMovesAgree(stacks: seq<Stack>, ins: Instruction)
    requires ValidMove(stacks, ins) && ins.amount <= 1
    ensures MoveSingly(stacks, ins) == MoveBlock(stacks, ins)
  {
    var a, b := MoveSingly(stacks, ins), MoveBlock(stacks, ins);
    if Moved(stacks, ins) > 0 && ins.source != ins.dest {
      var s, k := stacks[ins.source], Moved(stacks, ins);
      ReverseShort(s[|s| - k..]);
      SameMove(stacks, ins.source, ins.dest, a, b);
    }
  }

  /** Two results that agree on the source and the destination and leave every other stack alone are equal. */
  lemma SameMove(stacks: seq<Stack>, source: nat, dest: nat, a: seq<Stack>, b: seq<Stack>)
    requires source < |stacks| && dest < |stacks| && |a| == |stacks| && |b| == |stacks|
    requires a[source] == b[source] && a[dest] == b[dest]
    requires forall i :: 0 <= i < |stacks| && i != source && i != dest ==> a[i] == stacks[i]
    requires forall i :: 0 <= i < |stacks| && i != source && i != dest ==> b[i] == stacks[i]
    ensures a == b
  {
    forall i | 0 <= i < |a|
      ensures a[i] == b[i]
    {
      if i != source && i != dest {
        assert a[i] == stacks[i] == b[i];
      }
    }
  }

  /** At most one element reads the same backwards. */
  lemma ReverseShort<T>(s: seq<T>)
    requires |s| <= 1
    ensures Reverse(s) == s
  {
  }

  // ---------------------------------------------------------------------------
  // The answers
  // ---------------------------------------------------------------------------

  /** `flat_map(|mut stack| stack.pop())`: the top crate of every non-empty stack, in stack order. */
  function Tops(stacks: seq<Stack>): (r: string)
    ensures |r| <= |stacks|
    ensures (forall i :: 0 <= i < |stacks| ==> |stacks[i]| > 0) ==>
              |r| == |stacks| && forall i :: 0 <= i < |stacks| ==> r[i] == stacks[i][|stacks[i]| - 1]
  {
    if |stacks| == 0 then []
    else if |stacks[0]| == 0 then Tops(stacks[1..])
    else [stacks[0][|stacks[0]| - 1]] + Tops(stacks[1..])
  }

  /** The answer for a row of stacks is the answers for its parts, concatenated. */
  lemma {:induction false} TopsAppend(a: seq<Stack>, b: seq<Stack>)
    ensures Tops(a + b) == Tops(a) + Tops(b)
  {
    if |a| > 0 {
      assert (a + b)[1..] == a[1..] + b;
      TopsAppend(a[1..], b);
    } else {
      assert a + b == b;
    }
  }

  /** Empty stacks contribute nothing to the answer. */
  lemma TopsSkipsEmpty(stacks: seq<Stack>, i: nat)
    requires i < |stacks| && |stacks[i]| == 0
    ensures Tops(stacks) == Tops(stacks[..i]) + Tops(stacks[i + 1..])
  {
    assert stacks == stacks[..i] + [stacks[i]] + stacks[i + 1..];
    TopsAppend(stacks[..i] + [stacks[i]], stacks[i + 1..]);
    TopsAppend(stacks[..i], [stacks[i]]);
    assert Tops([stacks[i]]) == [];
  }

  /**
   * The instruction lists part one runs without panicking: each move is
   * valid on the stacks the moves before it leave.
   */
  predicate SinglyRuns(stacks: seq<Stack>, instructions: seq<Instruction>)
    decreases |instructions|
  {
    |instructions| == 0 ||
    (ValidMove(stacks, instructions[0]) && SinglyRuns(MoveSingly(stacks, instructions[0]), instructions[1..]))
  }

  /** The instruction lists part two runs without panicking. */
  predicate BlockRuns(stacks: seq<Stack>, instructions: seq<Instruction>)
    decreases |instructions|
  {
    |instructions| == 0 ||
    (ValidMove(stacks, instructions[0]) && BlockRuns(MoveBlock(stacks, instructions[0]), instructions[1..]))
  }

  /** Equal stack counts and equal heights, stack by stack. */
  predicate SameHeights(a: seq<Stack>, b: seq<Stack>)
  {
    |a| == |b| && forall i :: 0 <= i < |a| ==> |a[i]| == |b[i]|
  }

  /** Both move kinds leave the same heights, so validity never tells the parts apart. */
  lemma MovesKeepSameHeights(a: seq<Stack>, b: seq<Stack>, ins: Instruction)
    requires SameHeights(a, b) && ValidMove(a, ins)
    ensures ValidMove(b, ins) && Moved(a, ins) == Moved(b, ins)
    ensures SameHeights(MoveSingly(a, ins), MoveBlock(b, ins))
  {
    var ra, rb := MoveSingly(a, ins), MoveBlock(b, ins);
    if Moved(a, ins) > 0 && ins.source != ins.dest {
      forall i | 0 <= i < |ra|
        ensures |ra[i]| == |rb[i]|
      {
        if i != ins.source && i != ins.dest {
          assert ra[i] == a[i] && rb[i] == b[i];
        }
      }
    }
  }

  /** Part one runs exactly the instruction lists part two runs. */
  lemma {:induction false} RunsAgree(a: seq<Stack>, b: seq<Stack>, instructions: seq<Instruction>)
    requires SameHeights(a, b)
    ensures SinglyRuns(a, instructions) <==> BlockRuns(b, instructions)
    decreases |instructions|
  {
    if |instructions| > 0 {
      var ins := instructions[0];
      if ValidMove(a, ins) {
        MovesKeepSameHeights(a, b, ins);
        RunsAgree(MoveSingly(a, ins), MoveBlock(b, ins), instructions[1..]);
      } else if ValidMove(b, ins) {
        MovesKeepSameHeights(b, a, ins);
      }
    }
  }

  /** Every instruction indexes an existing stack: enough for both parts to run. */
  predicate InRange(stacks: seq<Stack>, instructions: seq<Instruction>)
  {
    forall j :: 0 <= j < |instructions| ==>
      instructions[j].source < |stacks| && instructions[j].dest < |stacks|
  }

  /** Instructions that only name existing stacks always run. */
  lemma {:induction false} InRangeRuns(stacks: seq<Stack>, instructions: seq<Instruction>)
    requires InRange(stacks, instructions)
    ensures SinglyRuns(stacks, instructions) && BlockRuns(stacks, instructions)
    decreases |instructions|
  {
    if |instructions| > 0 {
      var next := MoveSingly(stacks, instructions[0]);
      assert InRange(next, instructions[1..]) by {
        forall j | 0 <= j < |instructions[1..]|
          ensures instructions[1..][j] == instructions[j + 1]
        {
        }
      }
      InRangeRuns(next, instructions[1..]);
      assert SameHeights(stacks, stacks);
      RunsAgree(stacks, stacks, instructions);
    }
  }

  /** Applying part one's moves in order. */
  function RunSingly(stacks: seq<Stack>, instructions: seq<Instruction>): (r: seq<Stack>)
    requires SinglyRuns(stacks, instructions)
    ensures |r| == |stacks|
    ensures TotalCrates(r) == TotalCrates(stacks)
    decreases |instructions|
  {
    if |instructions| == 0 then stacks
    else
      MoveSinglyConserves(stacks, instructions[0]);
      RunSingly(MoveSingly(stacks, instructions[0]), instructions[1..])
  }

  /** Applying part two's moves in order. */
  function RunBlock(stacks: seq<Stack>, instructions: seq<Instruction>): (r: seq<Stack>)
    requires BlockRuns(stacks, instructions)
    ensures |r| == |stacks|
    ensures TotalCrates(r) == TotalCrates(stacks)
    decreases |instructions|
  {
    if |instructions| == 0 then stacks
    else
      MoveBlockConserves(stacks, instructions[0]);
      RunBlock(MoveBlock(stacks, instructions[0]), instructions[1..])
  }

  /** `part1`: the tops after moving crates one at a time. */
  function Part1(stacks: seq<Stack>, instructions: seq<Instruction>): (answer: string)
    requires SinglyRuns(stacks, instructions)
    ensures |answer| <= |stacks|
  {
    Tops(RunSingly(stacks, instructions))
  }

  /** `part2`: the tops after moving crates as blocks. */
  function Part2(stacks: seq<Stack>, instructions: seq<Instruction>): (answer: string)
    requires BlockRuns(stacks, instructions)
    ensures |answer| <= |stacks|
  {
    Tops(RunBlock(stacks, instructions))
  }

  /** When no instruction moves more than one crate, the two parts give the same answer. */
  lemma {:induction false} PartsAgreeOnSingleCrates(stacks: seq<Stack>, instructions: seq<Instruction>)
    requires SinglyRuns(stacks, instructions)
    requires forall j :: 0 <= j < |instructions| ==> instructions[j].amount <= 1
    ensures BlockRuns(stacks, instructions)
    ensures RunSingly(stacks, instructions) == RunBlock(stacks, instructions)
    ensures Part1(stacks, instructions) == Part2(stacks, instructions)
    decreases |instructions|
  {
    if |instructions| > 0 {
      SingleCrateMovesAgree(stacks, instructions[0]);
      PartsAgreeOnSingleCrates(MoveSingly(stacks, instructions[0]), instructions[1..]);
    }
  }
}
