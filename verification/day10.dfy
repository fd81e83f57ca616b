/**
 * Day 10, cathode-ray tube: a CPU with one register `X` (initially 1) runs
 * `noop` (one cycle) and `addx v` (two cycles, then `X += v`). Part one sums
 * the signal strength `cycle * X` at six sampled cycles; part two lights a
 * CRT pixel when the three-pixel sprite centred on `X` covers the beam.
 */
module CathodeRayTube {
  import opened Common
  import opened Numbers

  datatype Opcode = Noop | AddX

  /** An instruction: how many cycles it takes and what it adds to `X`. */
  datatype Instruction = Instruction(opcode: Opcode, cycles: nat, arg: Option<int>)

  /** `Instruction::default`: a `noop`. */
  const NOOP := Instruction(Noop, 1, None)

  /** `from_opcode`: `noop` takes one cycle, `addx` two; the argument is kept as given. */
  function FromOpcode(opcode: Opcode, arg: Option<int>): (r: Instruction)
    ensures r.opcode == opcode && r.arg == arg
    ensures 1 <= r.cycles <= 2
    ensures r.cycles == 2 <==> opcode == AddX
  {
    Instruction(opcode, if opcode == Noop then 1 else 2, arg)
  }

  /**
   * `from_str`: a line without a space is a `noop`; anything else is an
   * `addx` whose argument is the text after the first space read as an `i64`
   * (absent when it does not parse). It never fails.
   */
  function FromStr(s: string): (r: Instruction)
    ensures r == NOOP <==> ' ' !in s
    ensures ' ' in s ==> r.opcode == AddX && r.cycles == 2
  {
    match SplitOnce(s, ' ')
    case None => NOOP
    case Some((_, arg)) => FromOpcode(AddX, ParseSigned(arg, I64_MIN, I64_MAX))
  }

  /** `noop` parses to the default instruction and `addx v` to an `addx` of `v`. */
  lemma FromStrRoundTrip(v: int)
    requires I64_MIN <= v <= I64_MAX
    ensures FromStr("noop") == NOOP
    ensures FromStr("addx " + ShowInt(v)) == Instruction(AddX, 2, Some(v))
  {
    assert ' ' !in "noop";
    assert "addx " + ShowInt(v) == "addx" + [' '] + ShowInt(v);
    SplitOnceAt("addx", ' ', ShowInt(v));
    ParseShowSigned(v, I64_MIN, I64_MAX);
  }

  /** Every line, whatever it holds, parses to a `noop` or an `addx`. */
  lemma FromStrShape(s: string)
    ensures FromStr(s) == NOOP || (FromStr(s).opcode == AddX && FromStr(s).cycles == 2)
    ensures FromStr(s) == NOOP <==> ' ' !in s
  {
  }

  /** `generator`: one instruction per line. */
  function Generator(lines: seq<string>): (r: seq<Instruction>)
    ensures |r| == |lines|
    ensures forall i :: 0 <= i < |r| ==> r[i] == FromStr(lines[i])
  {
    if |lines| == 0 then [] else [FromStr(lines[0])] + Generator(lines[1..])
  }

  /** What an instruction adds to `X` once it completes. */
  function Increment(ins: Instruction): int
  {
    match ins.arg
    case None => 0
    case Some(v) => v
  }

  /** The number of cycles a program takes. */
  function TotalCycles(program: seq<Instruction>): nat
  {
    if |program| == 0 then 0 else program[0].cycles + TotalCycles(program[1..])
  }

  /** What a program adds to `X` in total. */
  function TotalIncrement(program: seq<Instruction>): int
  {
    if |program| == 0 then 0 else Increment(program[0]) + TotalIncrement(program[1..])
  }

  /**
   * The `scan` + `flatten` of both parts: the value of `X` during each cycle,
   * starting from `x`. An instruction holds the value it found for all its
   * cycles; its increment shows from the next instruction on.
   */
  function Signal(program: seq<Instruction>, x: int): (s: seq<int>)
    ensures |s| == TotalCycles(program)
  {
    if |program| == 0 then []
    else seq(program[0].cycles, _ => x) + Signal(program[1..], x + Increment(program[0]))
  }

  /** Splitting off the first instruction of a prefix. */
  lemma PrefixTail(program: seq<Instruction>, j: nat)
    requires 0 < j <= |program|
    ensures TotalCycles(program[..j]) == program[0].cycles + TotalCycles(program[1..][..j - 1])
    ensures TotalIncrement(program[..j]) == Increment(program[0]) + TotalIncrement(program[1..][..j - 1])
  {
    assert program[..j][1..] == program[1..][..j - 1];
  }

  /**
   * During each of its cycles, instruction `j` sees `X` as the start value
   * plus everything the instructions before it added; those cycles come
   * right after the cycles of the instructions before it.
   */
  lemma {:induction false} SignalAt(program: seq<Instruction>, x: int, j: nat, t: nat)
    requires j < |program| && t < program[j].cycles
    ensures TotalCycles(program[..j]) + t < TotalCycles(program)
    ensures Signal(program, x)[TotalCycles(program[..j]) + t] == x + TotalIncrement(program[..j])
  {
    if j == 0 {
      assert program[..0] == [];
    } else {
      PrefixTail(program, j);
      SignalAt(program[1..], x + Increment(program[0]), j - 1, t);
      var head := seq(program[0].cycles, _ => x);
      var rest := Signal(program[1..], x + Increment(program[0]));
      assert Signal(program, x) == head + rest;
      assert TotalCycles(program[..j]) + t == |head| + (TotalCycles(program[1..][..j - 1]) + t);
    }
  }

  /** After the whole program `X` holds the start value plus every increment. */
  function FinalX(program: seq<Instruction>, x: int): (r: int)
    ensures r == x + TotalIncrement(program)
  {
    if |program| == 0 then x else FinalX(program[1..], x + Increment(program[0]))
  }

  /** The cycles part one samples. */
  const CLOCKS: seq<nat> := [20, 60, 100, 140, 180, 220]

  /**
   * The `zip(1..)` + `filter_map` + `sum` of part one: `signal[0]` is cycle
   * `clock`, and a sampled cycle contributes `X * cycle`.
   */
  function Strength(signal: seq<int>, clock: nat): int
  {
    if |signal| == 0 then 0
    else (if clock in CLOCKS then signal[0] * clock else 0) + Strength(signal[1..], clock + 1)
  }

  /** `part1`: the signal strengths at the sampled cycles, summed. */
  function Part1(program: seq<Instruction>): (total: int)
    ensures total == Sampled(Signal(program, 1), 1, CLOCKS)
  {
    StrengthIsSampled(Signal(program, 1), 1);
    Strength(Signal(program, 1), 1)
  }

  /**
   * The reference definition: for each sampled cycle `c` the signal reaches,
   * `c` times the value during cycle `c`, where `signal[0]` is cycle `first`.
   */
  function Sampled(signal: seq<int>, first: nat, clocks: seq<nat>): int
  {
    if |clocks| == 0 then 0
    else
      var c := clocks[0];
      (if first <= c < first + |signal| then c * signal[c - first] else 0)
        + Sampled(signal, first, clocks[1..])
  }

  /** Dropping the first cycle of the signal only moves the sampled cycle `first` out. */
  lemma {:induction false} SampledStep(signal: seq<int>, first: nat, clocks: seq<nat>)
    requires |signal| > 0 && Distinct(clocks)
    ensures Sampled(signal, first, clocks)
         == (if first in clocks then signal[0] * first else 0) + Sampled(signal[1..], first + 1, clocks)
  {
    if |clocks| > 0 {
      assert Distinct(clocks[1..]) by {
        forall i, j | 0 <= i < j < |clocks[1..]|
          ensures clocks[1..][i] != clocks[1..][j]
        {
          assert clocks[1..][i] == clocks[i + 1] && clocks[1..][j] == clocks[j + 1];
        }
      }
      SampledStep(signal, first, clocks[1..]);
      var c := clocks[0];
      if c == first {
        assert first !in clocks[1..] by {
          forall k | 0 <= k < |clocks[1..]|
            ensures clocks[1..][k] != first
          {
            assert clocks[1..][k] == clocks[k + 1];
          }
        }
      } else {
        assert first in clocks <==> first in clocks[1..];
        if first + 1 <= c < first + |signal| {
          assert signal[1..][c - (first + 1)] == signal[c - first];
        }
      }
    }
  }

  /** The running sum of part one adds up exactly the sampled cycles' strengths. */
  lemma {:induction false} StrengthIsSampled(signal: seq<int>, first: nat)
    ensures Strength(signal, first) == Sampled(signal, first, CLOCKS)
  {
    if |signal| == 0 {
      SampledEmpty(signal, first, CLOCKS);
    } else {
      StrengthIsSampled(signal[1..], first + 1);
      SampledStep(signal, first, CLOCKS);
    }
  }

  lemma {:induction false} SampledEmpty(signal: seq<int>, first: nat, clocks: seq<nat>)
    requires |signal| == 0
    ensures Sampled(signal, first, clocks) == 0
  {
    if |clocks| > 0 {
      SampledEmpty(signal, first, clocks[1..]);
    }
  }

  /** The CRT width. */
  const WIDTH: nat := 40

  /** The pixel drawn in `column` while the sprite is centred on `x`. */
  function Pixel(x: int, column: int): (c: char)
    ensures c == '#' <==> -1 <= x - column <= 1
    ensures c == '#' || c == '.'
  {
    if column in [x - 1, x, x + 1] then '#' else '.'
  }

  /** The `zip(0..)` + `map` of part two: cycle `k` (from 0) draws column `k % 40`. */
  function Pixels(signal: seq<int>): (p: string)
    ensures |p| == |signal|
    ensures forall k :: 0 <= k < |p| ==> p[k] == Pixel(signal[k], k % WIDTH)
  {
    seq(|signal|, k requires 0 <= k < |signal| => Pixel(signal[k], k % WIDTH))
  }

  /** `chunks(40)`: the screen's rows. */
  function Rows(p: string): (rows: seq<string>)
    ensures forall i :: 0 <= i < |rows| ==> 1 <= |rows[i]| <= WIDTH
    ensures forall i :: 0 <= i < |rows| - 1 ==> |rows[i]| == WIDTH
    ensures Flatten(rows) == p
    decreases |p|
  {
    if |p| == 0 then []
    else if |p| <= WIDTH then
      assert Flatten([p]) == p + Flatten([p][1..]);
      [p]
    else
      var rest := Rows(p[WIDTH..]);
      assert ([p[..WIDTH]] + rest)[1..] == rest;
      assert p == p[..WIDTH] + p[WIDTH..];
      [p[..WIDTH]] + rest
  }

  /** The rows drawn during a program (part two prints them; it returns `None`). */
  function Screen(program: seq<Instruction>): (rows: seq<string>)
    ensures forall i :: 0 <= i < |rows| - 1 ==> |rows[i]| == WIDTH
    ensures |Flatten(rows)| == TotalCycles(program)
  {
    Rows(Pixels(Signal(program, 1)))
  }

  /** Row `i`, column `c` holds the pixel of cycle `40 i + c`. */
  lemma {:induction false} RowsAt(p: string, i: nat, c: nat)
    requires i < |Rows(p)| && c < |Rows(p)[i]|
    ensures WIDTH * i + c < |p| && Rows(p)[i][c] == p[WIDTH * i + c]
    decreases |p|
  {
    if i > 0 {
      assert |p| > WIDTH;
      assert Rows(p)[i] == Rows(p[WIDTH..])[i - 1];
      RowsAt(p[WIDTH..], i - 1, c);
    }
  }

  /**
   * Row `i`, column `c` of the screen is lit exactly when, during cycle
   * `40 i + c`, the sprite centred on `X` covers column `c`.
   */
  lemma ScreenLit(program: seq<Instruction>, i: nat, c: nat)
    requires i < |Screen(program)| && c < |Screen(program)[i]|
    ensures WIDTH * i + c < TotalCycles(program)
    ensures Screen(program)[i][c] == '#' <==> -1 <= Signal(program, 1)[WIDTH * i + c] - c <= 1
  {
    var signal := Signal(program, 1);
    var p := Pixels(signal);
    RowsAt(p, i, c);
    Column(i, c);
    assert p[WIDTH * i + c] == Pixel(signal[WIDTH * i + c], c);
  }

  lemma Column(i: nat, c: nat)
    requires c < WIDTH
    ensures (WIDTH * i + c) % WIDTH == c
  {
  }

  /** The three-instruction program from the puzzle text: `noop`, `addx 3`, `addx -5`. */
  lemma SmallProgram()
    ensures var program := [NOOP, Instruction(AddX, 2, Some(3)), Instruction(AddX, 2, Some(-5))];
            Signal(program, 1) == [1, 1, 1, 4, 4] && FinalX(program, 1) == -1
  {
    var program := [NOOP, Instruction(AddX, 2, Some(3)), Instruction(AddX, 2, Some(-5))];
    assert program[1..][1..][1..] == [];
    assert Signal(program[1..][1..], 4) == [4, 4];
    assert Signal(program[1..], 1) == [1, 1, 4, 4];
    assert TotalIncrement(program[1..][1..]) == -5;
    assert TotalIncrement(program) == -2;
  }
}
