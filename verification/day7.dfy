/**
 * Day 7, no space left on device: a terminal session of `cd` commands and
 * file listings is folded into directory sizes with a stack of running
 * totals, one entry per open directory; part one sums the small directories,
 * part two picks the smallest directory whose deletion frees enough space.
 */
module NoSpaceLeft {
  import opened Common

  /** The commands of the session (`Command`). */
  datatype Command = Ls | CdBack | CdInto(name: string)

  /** A parsed line: a file listing (`Either::Left`) or a command (`Either::Right`). */
  datatype Event = File(size: nat) | Cmd(cmd: Command)

  /** The argument mapping of `parse_cd`: `..` goes up, anything else goes down. */
  function ParseCd(arg: string): (c: Command)
    ensures c == CdBack <==> arg == ".."
    ensures c.CdInto? ==> c.name == arg
  {
    if arg == ".." then CdBack else CdInto(arg)
  }

  /** The fold's accumulator: sizes of closed directories, and the running sizes of the open ones. */
  datatype State = State(allDirs: seq<nat>, stack: seq<nat>)

  /**
   * The events the fold handles without panicking, starting with `depth`
   * open directories: a file needs an open directory (`last_mut().unwrap()`),
   * and `cd ..` needs one to close and one to add its size to.
   */
  predicate Valid(events: seq<Event>, depth: nat)
  {
    if |events| == 0 then true
    else match events[0]
      case File(_) => depth >= 1 && Valid(events[1..], depth)
      case Cmd(Ls) => Valid(events[1..], depth)
      case Cmd(CdInto(_)) => Valid(events[1..], depth + 1)
      case Cmd(CdBack) => depth >= 2 && Valid(events[1..], depth - 1)
  }

  /**
   * The closure of the fold: one event applied to the accumulator. The
   * stack's sum grows by exactly the size of a listed file, only `cd ..`
   * records a directory, and the stack is one deeper after `cd` into a
   * directory and one shallower after `cd ..`.
   */
  function Step(s: State, e: Event): (r: State)
    requires e.File? ==> |s.stack| >= 1
    requires e == Cmd(CdBack) ==> |s.stack| >= 2
    ensures Sum(r.stack) == Sum(s.stack) + (if e.File? then e.size else 0)
    ensures r.allDirs == s.allDirs + (if e == Cmd(CdBack) then [s.stack[|s.stack| - 1]] else [])
    ensures |r.stack| == |s.stack| + (if e.Cmd? && e.cmd.CdInto? then 1 else 0) - (if e == Cmd(CdBack) then 1 else 0)
  {
    var n := |s.stack|;
    match e
    case File(size) =>
      AddToTop(s.stack, size);
      State(s.allDirs, s.stack[n - 1 := s.stack[n - 1] + size])
    case Cmd(Ls) =>
      assert s.allDirs + [] == s.allDirs;
      s
    case Cmd(CdInto(_)) =>
      SumAppend(s.stack, [0]);
      State(s.allDirs, s.stack + [0])
    case Cmd(CdBack) =>
      var top := s.stack[n - 1];
      var popped := s.stack[..n - 1];
      CloseTop(s.stack);
      State(s.allDirs + [top], popped[n - 2 := popped[n - 2] + top])
  }

  /** What each event does to the stack of running sizes. */
  lemma StepEffect(s: State, e: Event)
    requires e.File? ==> |s.stack| >= 1
    requires e == Cmd(CdBack) ==> |s.stack| >= 2
    ensures e.Cmd? && e.cmd.Ls? ==> Step(s, e) == s
    ensures e.File? ==> var n := |s.stack|;
                        Step(s, e).stack == s.stack[..n - 1] + [s.stack[n - 1] + e.size]
    ensures e.Cmd? && e.cmd.CdInto? ==> Step(s, e).stack == s.stack + [0]
    ensures e == Cmd(CdBack) ==> var n := |s.stack|;
                                 Step(s, e).stack == s.stack[..n - 2] + [s.stack[n - 2] + s.stack[n - 1]]
  {
    if e.File? {
      AddToTop(s.stack, e.size);
    } else if e == Cmd(CdBack) {
      CloseTop(s.stack);
    }
  }

  /** A file's size added to the top entry: the stack's sum grows by that size. */
  lemma AddToTop(stack: seq<nat>, size: nat)
    requires |stack| > 0
    ensures var n := |stack|;
            && stack[n - 1 := stack[n - 1] + size] == stack[..n - 1] + [stack[n - 1] + size]
            && Sum(stack[n - 1 := stack[n - 1] + size]) == Sum(stack) + size
  {
    StackSumUpdate(stack, stack[|stack| - 1] + size);
  }

  /** The top entry popped and added to the one below: the stack's sum is unchanged. */
  lemma CloseTop(stack: seq<nat>)
    requires |stack| >= 2
    ensures var n := |stack|;
            var top, popped := stack[n - 1], stack[..n - 1];
            && popped[n - 2 := popped[n - 2] + top] == stack[..n - 2] + [stack[n - 2] + top]
            && Sum(popped[n - 2 := popped[n - 2] + top]) == Sum(stack)
  {
    var n := |stack|;
    var top, popped := stack[n - 1], stack[..n - 1];
    StackSumUpdate(popped, popped[n - 2] + top);
    assert stack == popped + [top];
    SumAppend(popped, [top]);
  }

  /** Replacing the top of a stack changes its sum by the difference. */
  lemma StackSumUpdate(stack: seq<nat>, v: nat)
    requires |stack| > 0
    ensures Sum(stack[|stack| - 1 := v]) == Sum(stack) - stack[|stack| - 1] + v
  {
    var n := |stack|;
    assert stack == stack[..n - 1] + [stack[n - 1]];
    assert stack[n - 1 := v] == stack[..n - 1] + [v];
    SumAppend(stack[..n - 1], [stack[n - 1]]);
    SumAppend(stack[..n - 1], [v]);
  }

  /** Total size of the files listed. */
  function FileTotal(events: seq<Event>): nat
  {
    if |events| == 0 then 0
    else (if events[0].File? then events[0].size else 0) + FileTotal(events[1..])
  }

  /** Number of directories entered (`cd /` included). */
  function Opened(events: seq<Event>): nat
  {
    if |events| == 0 then 0
    else (if events[0].Cmd? && events[0].cmd.CdInto? then 1 else 0) + Opened(events[1..])
  }

  /** Number of `cd ..`. */
  function Closed(events: seq<Event>): nat
  {
    if |events| == 0 then 0
    else (if events[0] == Cmd(CdBack) then 1 else 0) + Closed(events[1..])
  }

  /**
   * The `fold` over the events. The stack's sum grows by exactly the file
   * sizes listed (the sizes are only ever moved between entries), every
   * `cd ..` records one closed directory, and the stack ends one entry
   * deeper per directory still open.
   */
  function Fold(s: State, events: seq<Event>): (r: State)
    requires Valid(events, |s.stack|)
    ensures Sum(r.stack) == Sum(s.stack) + FileTotal(events)
    ensures |r.allDirs| == |s.allDirs| + Closed(events)
    ensures r.allDirs[..|s.allDirs|] == s.allDirs
    ensures |r.stack| + Closed(events) == |s.stack| + Opened(events)
    decreases |events|
  {
    if |events| == 0 then s
    else
      var next := Step(s, events[0]);
      var r := Fold(next, events[1..]);
      assert r.allDirs[..|s.allDirs|] == r.allDirs[..|next.allDirs|][..|s.allDirs|];
      r
  }

  /** The events never close a directory that was open at depth `floor` or shallower. */
  predicate StaysBelow(events: seq<Event>, depth: nat, floor: nat)
  {
    if |events| == 0 then true
    else match events[0]
      case File(_) => StaysBelow(events[1..], depth, floor)
      case Cmd(Ls) => StaysBelow(events[1..], depth, floor)
      case Cmd(CdInto(_)) => StaysBelow(events[1..], depth + 1, floor)
      case Cmd(CdBack) => depth >= floor + 1 && StaysBelow(events[1..], depth - 1, floor)
  }

  /** Events inside a directory leave the entries of the directories above it alone. */
  lemma {:induction false} FoldKeepsOuter(s: State, events: seq<Event>, floor: nat)
    requires 1 <= floor <= |s.stack|
    requires Valid(events, |s.stack|) && StaysBelow(events, |s.stack|, floor)
    ensures |Fold(s, events).stack| >= floor
    ensures Fold(s, events).stack[..floor - 1] == s.stack[..floor - 1]
    decreases |events|
  {
    if |events| > 0 {
      var next := Step(s, events[0]);
      var n := |s.stack|;
      StepEffect(s, events[0]);
      match events[0] {
        case File(_) =>
          assert next.stack[..floor - 1] == s.stack[..n - 1][..floor - 1];
        case Cmd(Ls) =>
        case Cmd(CdInto(_)) =>
          assert next.stack[..floor - 1] == s.stack[..floor - 1];
        case Cmd(CdBack) =>
          assert next.stack[..floor - 1] == s.stack[..floor - 1];
      }
      FoldKeepsOuter(next, events[1..], floor);
    }
  }

  /**
   * A directory entered, listed and left again is recorded with the total
   * size of the files listed inside it (its subdirectories included), and
   * that size is added to its parent's entry.
   */
  lemma {:induction false} DirectorySize(s: State, name: string, inner: seq<Event>)
    requires |s.stack| >= 1
    requires Valid(inner, |s.stack| + 1) && StaysBelow(inner, |s.stack| + 1, |s.stack| + 1)
    requires Opened(inner) == Closed(inner)
    ensures var events := [Cmd(CdInto(name))] + inner + [Cmd(CdBack)];
            && Valid(events, |s.stack|)
            && var r := Fold(s, events);
            && r.allDirs == Fold(State(s.allDirs, s.stack + [0]), inner).allDirs + [FileTotal(inner)]
            && r.stack == s.stack[..|s.stack| - 1] + [s.stack[|s.stack| - 1] + FileTotal(inner)]
  {
    var entered := [Cmd(CdInto(name))] + inner;
    EnterDirectory(s, name, inner);
    CloseAfter(s, entered, FileTotal(inner));
  }

  /** Events that leave `size` on a new top entry, followed by `cd ..`: the size is recorded and handed down. */
  lemma CloseAfter(s: State, entered: seq<Event>, size: nat)
    requires |s.stack| >= 1 && Valid(entered, |s.stack|)
    requires Fold(s, entered).stack == s.stack + [size]
    ensures Valid(entered + [Cmd(CdBack)], |s.stack|)
    ensures Fold(s, entered + [Cmd(CdBack)]).allDirs == Fold(s, entered).allDirs + [size]
    ensures Fold(s, entered + [Cmd(CdBack)]).stack == s.stack[..|s.stack| - 1] + [s.stack[|s.stack| - 1] + size]
  {
    ValidAppend(entered, [Cmd(CdBack)], |s.stack|);
    FoldThenClose(s, entered, size);
  }

  /** Folding `entered` and then `cd ..` is folding the two in turn. */
  lemma FoldThenClose(s: State, entered: seq<Event>, size: nat)
    requires |s.stack| >= 1 && Valid(entered, |s.stack|) && Valid(entered + [Cmd(CdBack)], |s.stack|)
    requires Fold(s, entered).stack == s.stack + [size]
    ensures Fold(s, entered + [Cmd(CdBack)]).allDirs == Fold(s, entered).allDirs + [size]
    ensures Fold(s, entered + [Cmd(CdBack)]).stack == s.stack[..|s.stack| - 1] + [s.stack[|s.stack| - 1] + size]
  {
    var s2 := Fold(s, entered);
    FoldAppend(s, entered, [Cmd(CdBack)]);
    LeaveDirectory(s2, s.stack, size);
  }

  /** Entering a directory and listing it leaves its size on top of the stack. */
  lemma {:induction false} EnterDirectory(s: State, name: string, inner: seq<Event>)
    requires |s.stack| >= 1
    requires Valid(inner, |s.stack| + 1) && StaysBelow(inner, |s.stack| + 1, |s.stack| + 1)
    requires Opened(inner) == Closed(inner)
    ensures var entered := [Cmd(CdInto(name))] + inner;
            && Valid(entered, |s.stack|)
            && Fold(s, entered) == Fold(State(s.allDirs, s.stack + [0]), inner)
            && Fold(s, entered).stack == s.stack + [FileTotal(inner)]
  {
    var entered := [Cmd(CdInto(name))] + inner;
    InnerFold(s, inner);
    assert entered[1..] == inner;
    StepEffect(s, entered[0]);
    assert Step(s, entered[0]) == State(s.allDirs, s.stack + [0]);
  }

  /** `cd ..` from a directory of size `size` hands the size to the parent and records it. */
  lemma LeaveDirectory(s: State, outer: seq<nat>, size: nat)
    requires |outer| >= 1 && s.stack == outer + [size]
    ensures Valid([Cmd(CdBack)], |s.stack|)
    ensures Fold(s, [Cmd(CdBack)]).allDirs == s.allDirs + [size]
    ensures Fold(s, [Cmd(CdBack)]).stack == outer[..|outer| - 1] + [outer[|outer| - 1] + size]
  {
    assert [Cmd(CdBack)][1..] == [];
    var n := |outer|;
    StepEffect(s, Cmd(CdBack));
    assert s.stack[..n - 1] == outer[..n - 1];
  }

  /** The listing inside a freshly entered directory accumulates in its own new entry. */
  lemma {:induction false} InnerFold(s: State, inner: seq<Event>)
    requires |s.stack| >= 1
    requires Valid(inner, |s.stack| + 1) && StaysBelow(inner, |s.stack| + 1, |s.stack| + 1)
    requires Opened(inner) == Closed(inner)
    ensures Fold(State(s.allDirs, s.stack + [0]), inner).stack == s.stack + [FileTotal(inner)]
  {
    var n := |s.stack|;
    var s1 := State(s.allDirs, s.stack + [0]);
    var s2 := Fold(s1, inner);
    FoldKeepsOuter(s1, inner, n + 1);
    assert s1.stack[..n] == s.stack;
    assert s2.stack == s.stack + [s2.stack[n]];
    SumAppend(s.stack, [0]);
    SumAppend(s.stack, [s2.stack[n]]);
  }

  /** The depth after the events, starting at `depth`. */
  function Depth(events: seq<Event>, depth: nat): int
  {
    depth + Opened(events) - Closed(events)
  }

  lemma {:induction false} OpenedClosedAppend(a: seq<Event>, b: seq<Event>)
    ensures Opened(a + b) == Opened(a) + Opened(b)
    ensures Closed(a + b) == Closed(a) + Closed(b)
    ensures FileTotal(a + b) == FileTotal(a) + FileTotal(b)
  {
    if |a| == 0 {
      assert a + b == b;
    } else {
      assert (a + b)[1..] == a[1..] + b;
      OpenedClosedAppend(a[1..], b);
    }
  }

  /** Validity of a concatenation: the first part, then the second from where the first ends. */
  lemma {:induction false} ValidAppend(a: seq<Event>, b: seq<Event>, depth: nat)
    requires Valid(a, depth) && Depth(a, depth) >= 0 && Valid(b, Depth(a, depth) as nat)
    ensures Valid(a + b, depth)
  {
    if |a| == 0 {
      assert a + b == b;
    } else {
      assert (a + b)[1..] == a[1..] + b;
      match a[0]
      case File(_) => ValidAppend(a[1..], b, depth);
      case Cmd(Ls) => ValidAppend(a[1..], b, depth);
      case Cmd(CdInto(_)) => ValidAppend(a[1..], b, depth + 1);
      case Cmd(CdBack) => ValidAppend(a[1..], b, depth - 1);
    }
  }

  /** Folding a concatenation folds the parts in turn. */
  lemma {:induction false} FoldAppend(s: State, a: seq<Event>, b: seq<Event>)
    requires Valid(a + b, |s.stack|) && Valid(a, |s.stack|)
    ensures Valid(b, |Fold(s, a).stack|)
    ensures Fold(s, a + b) == Fold(Fold(s, a), b)
    decreases |a|
  {
    if |a| == 0 {
      assert a + b == b;
    } else {
      assert (a + b)[1..] == a[1..] + b;
      FoldAppend(Step(s, a[0]), a[1..], b);
    }
  }

  /** The accumulator after the whole session, from the empty start. */
  function Session(events: seq<Event>): (r: State)
    requires Valid(events, 0)
    ensures Sum(r.stack) == FileTotal(events)
    ensures |r.allDirs| == Closed(events)
    ensures |r.stack| + Closed(events) == Opened(events)
  {
    Fold(State([], []), events)
  }

  /**
   * The final `iter_mut().rev().fold`: each open directory's entry gains the
   * sizes of the open directories below it.
   */
  function Propagate(stack: seq<nat>): (r: seq<nat>)
    ensures |r| == |stack|
    ensures forall i :: 0 <= i < |stack| ==> r[i] == Sum(stack[i..])
  {
    if |stack| == 0 then []
    else
      var rest := Propagate(stack[1..]);
      PropagateStep(stack, rest);
      [stack[0] + (if |rest| == 0 then 0 else rest[0])] + rest
  }

  /** Prepending an entry to the propagated rest of the stack: the new entry gains the rest's sum. */
  lemma PropagateStep(stack: seq<nat>, rest: seq<nat>)
    requires |stack| > 0 && |rest| == |stack| - 1
    requires forall i :: 0 <= i < |rest| ==> rest[i] == Sum(stack[1..][i..])
    ensures var r := [stack[0] + (if |rest| == 0 then 0 else rest[0])] + rest;
            forall i :: 0 <= i < |stack| ==> r[i] == Sum(stack[i..])
  {
    var r := [stack[0] + (if |rest| == 0 then 0 else rest[0])] + rest;
    forall i | 0 <= i < |stack|
      ensures r[i] == Sum(stack[i..])
    {
      if i == 0 {
        assert stack[0..] == stack;
        if |rest| > 0 {
          assert rest[0] == Sum(stack[1..][0..]);
          assert stack[1..][0..] == stack[1..];
        }
      } else {
        assert r[i] == rest[i - 1] == Sum(stack[1..][i - 1..]);
        assert stack[1..][i - 1..] == stack[i..];
      }
    }
  }

  /** The value the reverse fold returns: the propagated root entry, or 0 when no directory is open. */
  function RootSize(stack: seq<nat>): (size: nat)
    ensures size == Sum(stack)
  {
    var p := Propagate(stack);
    if |p| == 0 then 0 else p[0]
  }

  /** Every directory of the session is entered once, so the root size is the size of every file. */
  lemma RootIsTotal(events: seq<Event>)
    requires Valid(events, 0)
    ensures RootSize(Session(events).stack) == FileTotal(events)
  {
  }

  /** The sizes both parts choose from: closed directories, then the open ones after propagation. */
  function Candidates(events: seq<Event>): (c: seq<nat>)
    requires Valid(events, 0)
    ensures |c| == Opened(events)
  {
    var s := Session(events);
    s.allDirs + Propagate(s.stack)
  }

  /** The values at most `limit`, in order: `filter(|&&size| size <= limit)`. */
  function AtMost(xs: seq<nat>, limit: nat): (ys: seq<nat>)
    ensures forall i :: 0 <= i < |ys| ==> ys[i] <= limit
    ensures forall x :: multiset(ys)[x] == if x <= limit then multiset(xs)[x] else 0
  {
    if |xs| == 0 then []
    else
      assert xs == [xs[0]] + xs[1..];
      if xs[0] <= limit then [xs[0]] + AtMost(xs[1..], limit) else AtMost(xs[1..], limit)
  }

  /** Sum of the values at most `limit`. */
  function SumAtMost(xs: seq<nat>, limit: nat): (total: nat)
    ensures total <= Sum(xs)
    ensures total == Sum(AtMost(xs, limit))
    ensures (forall i :: 0 <= i < |xs| ==> xs[i] <= limit) ==> total == Sum(xs)
    ensures (forall i :: 0 <= i < |xs| ==> xs[i] > limit) ==> total == 0
  {
    if |xs| == 0 then 0
    else (if xs[0] <= limit then xs[0] else 0) + SumAtMost(xs[1..], limit)
  }

  lemma {:induction false} SumAtMostAppend(a: seq<nat>, b: seq<nat>, limit: nat)
    ensures SumAtMost(a + b, limit) == SumAtMost(a, limit) + SumAtMost(b, limit)
  {
    if |a| == 0 {
      assert a + b == b;
    } else {
      assert (a + b)[1..] == a[1..] + b;
      SumAtMostAppend(a[1..], b, limit);
    }
  }

  const SMALL_DIR: nat := 100_000

  /**
   * `part1` as written: `root_size` is pushed onto `all_dirs`, and the
   * propagated stack, whose first entry is that same root, is chained after
   * it, so the root is offered twice.
   */
  function Part1AsWritten(events: seq<Event>): (total: nat)
    requires Valid(events, 0)
    ensures total <= Sum(Candidates(events)) + RootSize(Session(events).stack)
  {
    var s := Session(events);
    var root := RootSize(s.stack);
    SumAppend(s.allDirs + [root], Propagate(s.stack));
    SumAppend(s.allDirs, [root]);
    SumAppend(s.allDirs, Propagate(s.stack));
    SumAtMost(s.allDirs + [root] + Propagate(s.stack), SMALL_DIR)
  }

  /** `part1` as intended: the sizes of the directories of at most 100 000, each directory once. */
  function Part1(events: seq<Event>): (total: nat)
    requires Valid(events, 0)
    ensures total <= Sum(Candidates(events))
    ensures total == Sum(AtMost(Candidates(events), SMALL_DIR))
  {
    SumAtMost(Candidates(events), SMALL_DIR)
  }

  /** The written `part1` exceeds the intended one by the root size, when the root is small. */
  lemma Part1CountsRootTwice(events: seq<Event>)
    requires Valid(events, 0)
    ensures var root := RootSize(Session(events).stack);
            Part1AsWritten(events) == Part1(events) + (if root <= SMALL_DIR then root else 0)
  {
    var s := Session(events);
    var root := RootSize(s.stack);
    SumAtMostAppend(s.allDirs + [root], Propagate(s.stack), SMALL_DIR);
    SumAtMostAppend(s.allDirs, [root], SMALL_DIR);
    SumAtMostAppend(s.allDirs, Propagate(s.stack), SMALL_DIR);
  }

  /** A session with one small file in the root: the written `part1` answers 20 instead of 10. */
  lemma Part1DoubleCountExample()
    ensures Part1AsWritten([Cmd(CdInto("/")), File(10)]) == 20
    ensures Part1([Cmd(CdInto("/")), File(10)]) == 10
  {
    var events := [Cmd(CdInto("/")), File(10)];
    assert events[1..] == [File(10)];
    StepEffect(State([], []), events[0]);
    var s1 := Step(State([], []), events[0]);
    StepEffect(s1, File(10));
    assert s1 == State([], [0]);
    assert Step(s1, File(10)) == State([], [10]);
    assert Fold(s1, [File(10)]) == Fold(State([], [10]), []);
    var s := Session(events);
    assert s == State([], [10]);
    assert Sum([10]) == 10;
    Part1CountsRootTwice(events);
    assert Propagate([10]) == [10];
    assert Candidates(events) == [10];
    assert SumAtMost([10], SMALL_DIR) == 10;
  }

  const DISK: nat := 70_000_000
  const NEEDED: nat := 30_000_000

  /** Whether deleting a directory of this size leaves enough free space. */
  predicate Frees(root: nat, size: nat)
    requires root <= DISK
  {
    DISK - root + size >= NEEDED
  }

  /** The smallest element of a non-empty sequence. */
  function Minimum(xs: seq<nat>): (m: nat)
    requires |xs| > 0
    ensures m in xs && forall i :: 0 <= i < |xs| ==> m <= xs[i]
  {
    if |xs| == 1 then xs[0]
    else
      var rest := Minimum(xs[1..]);
      if xs[0] <= rest then xs[0] else rest
  }

  /** The candidates that free enough space. */
  function Freeing(xs: seq<nat>, root: nat): (r: seq<nat>)
    requires root <= DISK
    ensures forall x :: x in r <==> x in xs && Frees(root, x)
  {
    if |xs| == 0 then []
    else (if Frees(root, xs[0]) then [xs[0]] else []) + Freeing(xs[1..], root)
  }

  /**
   * `part2`. `70_000_000 - root_size` is a `usize` subtraction, so the root
   * must fit on the disk; the final `unwrap` needs a freeing candidate, and
   * the root itself always is one once a directory is open.
   */
  function Part2(events: seq<Event>): (size: nat)
    requires Valid(events, 0) && Opened(events) > Closed(events)
    requires FileTotal(events) <= DISK
    ensures size in Candidates(events)
    ensures Frees(FileTotal(events), size)
    ensures forall x :: x in Candidates(events) && Frees(FileTotal(events), x) ==> size <= x
  {
    var root := RootSize(Session(events).stack);
    var c := Candidates(events);
    RootIsCandidate(events);
    assert root in Freeing(c, root);
    Minimum(Freeing(c, root))
  }

  /** Once a directory is open, the root size is among the candidates. */
  lemma RootIsCandidate(events: seq<Event>)
    requires Valid(events, 0) && Opened(events) > Closed(events)
    ensures RootSize(Session(events).stack) in Candidates(events)
  {
    var s := Session(events);
    assert Candidates(events)[|s.allDirs|] == Propagate(s.stack)[0];
  }
}
