/**
 * Day 11, monkey in the middle: monkeys take turns throwing every item they
 * hold. Inspecting an item changes its worry level by the monkey's
 * operation (then divides it by 3 in part one), and a divisibility test on
 * the new level picks which of two monkeys catches it. The answer is the
 * product of the two largest throw counts.
 *
 * Worry levels are unbounded here. `None` as the modulus means the level is
 * kept as is; `Some(p)` reduces it modulo `p` as the code does.
 */
module MonkeyInTheMiddle {
  import opened Common
  import opened HighestN

  /** `Operation`: `old * k`, `old * old` or `old + k` (`Operation::Sum` is `Add` here). */
  datatype Operation = Multiply(factor: nat) | Square | Add(term: nat)

  /**
   * `Monkey`: the queue of held items, the operation, the test divisor, the
   * monkeys that catch when the test holds and when it fails, and how many
   * items it has thrown.
   */
  datatype Monkey = Monkey(
    items: seq<nat>,
    operation: Operation,
    divisor: nat,
    ifTrue: nat,
    ifFalse: nat,
    thrown: nat)

  /** `Monkey::default`, which `mem::take` leaves behind while a monkey throws. */
  const DEFAULT := Monkey([], Square, 0, 0, 0, 0)

  /** The monkey's operation on a worry level; it never lowers a positive level unless it multiplies by 0. */
  function Apply(op: Operation, level: nat): (r: nat)
    ensures level > 0 && op != Multiply(0) ==> r >= level
  {
    match op
    case Multiply(k) => level * k
    case Square => level * level
    case Add(k) => level + k
  }

  predicate ModulusOk(modulus: Option<nat>)
  {
    modulus.Some? ==> modulus.value > 0
  }

  /**
   * The level an item is thrown with: the operation, then `/ 3` when worry
   * decreases (part one), then `% test_divider` when a modulus is given.
   */
  function Inspect(m: Monkey, level: nat, relief: bool, modulus: Option<nat>): (r: nat)
    requires ModulusOk(modulus)
    ensures modulus.Some? ==> r < modulus.value
  {
    var w := Apply(m.operation, level) / (if relief then 3 else 1);
    match modulus
    case None => w
    case Some(p) => w % p
  }

  /** The catcher of an item thrown with `level`. */
  function Target(m: Monkey, level: nat): (t: nat)
    requires m.divisor > 0
    ensures t == m.ifTrue <==> (level % m.divisor == 0 || m.ifTrue == m.ifFalse)
    ensures t == m.ifTrue || t == m.ifFalse
  {
    if level % m.divisor == 0 then m.ifTrue else m.ifFalse
  }

  /** What throwing needs so as not to panic: a non-zero divisor and catchers that exist. */
  predicate CanThrow(m: Monkey, count: nat)
  {
    m.divisor > 0 && m.ifTrue < count && m.ifFalse < count
  }

  /** The levels of `items`, in order, that `m` sends to monkey `j`. */
  function Routed(m: Monkey, items: seq<nat>, j: nat, relief: bool, modulus: Option<nat>): (r: seq<nat>)
    requires |items| > 0 ==> m.divisor > 0
    requires ModulusOk(modulus)
    ensures |r| <= |items|
    ensures m.ifTrue != j && m.ifFalse != j ==> r == []
  {
    if |items| == 0 then []
    else
      var level := Inspect(m, items[0], relief, modulus);
      (if Target(m, level) == j then [level] else []) + Routed(m, items[1..], j, relief, modulus)
  }

  /** `catch`: the item joins the back of the queue. */
  function Catch(m: Monkey, item: nat): (r: Monkey)
    ensures |r.items| == |m.items| + 1
    ensures r.items[..|m.items|] == m.items && r.items[|m.items|] == item
  {
    m.(items := m.items + [item])
  }

  /** The number of items all monkeys hold. */
  function TotalItems(ms: seq<Monkey>): nat
  {
    if |ms| == 0 then 0 else |ms[0].items| + TotalItems(ms[1..])
  }

  /** Replacing one monkey changes the total by the difference of their queue lengths. */
  lemma {:induction false} TotalItemsUpdate(ms: seq<Monkey>, t: nat, m: Monkey)
    requires t < |ms|
    ensures TotalItems(ms[t := m]) == TotalItems(ms) - |ms[t].items| + |m.items|
  {
    if t > 0 {
      assert ms[t := m][1..] == ms[1..][t - 1 := m];
      TotalItemsUpdate(ms[1..], t - 1, m);
    }
  }

  /**
   * The `for_each` of `throw`: each item in turn is inspected and caught by
   * its target. Every monkey ends with what it held followed by the items
   * routed to it, in the order they were thrown; nothing else changes.
   */
  function Deliver(m: Monkey, items: seq<nat>, others: seq<Monkey>, relief: bool, modulus: Option<nat>)
    : (r: seq<Monkey>)
    requires |items| > 0 ==> CanThrow(m, |others|)
    requires ModulusOk(modulus)
    ensures |r| == |others|
    ensures forall j :: 0 <= j < |r| ==>
              r[j] == others[j].(items := others[j].items + Routed(m, items, j, relief, modulus))
    ensures TotalItems(r) == TotalItems(others) + |items|
    decreases |items|
  {
    if |items| == 0 then others
    else
      var level := Inspect(m, items[0], relief, modulus);
      var t := Target(m, level);
      var next := others[t := Catch(others[t], level)];
      TotalItemsUpdate(others, t, Catch(others[t], level));
      var r := Deliver(m, items[1..], next, relief, modulus);
      DeliverStep(m, items, others, t, level, r, relief, modulus);
      r
  }

  /** Catching the first item, then the rest, is catching them all in order. */
  lemma DeliverStep(m: Monkey, items: seq<nat>, others: seq<Monkey>, t: nat, level: nat, r: seq<Monkey>,
                    relief: bool, modulus: Option<nat>)
    requires |items| > 0 && CanThrow(m, |others|) && ModulusOk(modulus)
    requires level == Inspect(m, items[0], relief, modulus) && t == Target(m, level)
    requires var next := others[t := Catch(others[t], level)];
             && |r| == |others|
             && forall j :: 0 <= j < |r| ==>
                  r[j] == next[j].(items := next[j].items + Routed(m, items[1..], j, relief, modulus))
    ensures forall j :: 0 <= j < |r| ==>
              r[j] == others[j].(items := others[j].items + Routed(m, items, j, relief, modulus))
  {
    forall j | 0 <= j < |r|
      ensures r[j] == others[j].(items := others[j].items + Routed(m, items, j, relief, modulus))
    {
      DeliverStepAt(m, items, others, t, level, j, relief, modulus);
    }
  }

  /** `DeliverStep` for monkey `j`: what it caught first, then what it caught from the rest. */
  lemma DeliverStepAt(m: Monkey, items: seq<nat>, others: seq<Monkey>, t: nat, level: nat, j: nat,
                      relief: bool, modulus: Option<nat>)
    requires |items| > 0 && CanThrow(m, |others|) && ModulusOk(modulus) && j < |others|
    requires level == Inspect(m, items[0], relief, modulus) && t == Target(m, level)
    ensures var next := others[t := Catch(others[t], level)];
            next[j].(items := next[j].items + Routed(m, items[1..], j, relief, modulus))
            == others[j].(items := others[j].items + Routed(m, items, j, relief, modulus))
  {
    var next := others[t := Catch(others[t], level)];
    var here: seq<nat> := if t == j then [level] else [];
    var later := Routed(m, items[1..], j, relief, modulus);
    assert next[j] == others[j].(items := others[j].items + here);
    RoutedFirst(m, items, j, level, relief, modulus);
    assert others[j].items + here + later == others[j].items + (here + later);
  }

  /** The first item goes to monkey `j` exactly when `j` is its target. */
  lemma RoutedFirst(m: Monkey, items: seq<nat>, j: nat, level: nat, relief: bool, modulus: Option<nat>)
    requires |items| > 0 && m.divisor > 0 && ModulusOk(modulus)
    requires level == Inspect(m, items[0], relief, modulus)
    ensures Routed(m, items, j, relief, modulus) ==
            (if Target(m, level) == j then [level] else []) + Routed(m, items[1..], j, relief, modulus)
  {
  }

  /**
   * `throw`: the thrower's queue is drained, its counter grows by the number
   * of items it held, and every item goes, in order, to the back of its
   * target's queue.
   */
  function Throw(m: Monkey, others: seq<Monkey>, relief: bool, modulus: Option<nat>)
    : (r: (Monkey, seq<Monkey>))
    requires |m.items| > 0 ==> CanThrow(m, |others|)
    requires ModulusOk(modulus)
    ensures r.0 == m.(items := [], thrown := m.thrown + |m.items|)
    ensures |r.1| == |others|
    ensures forall j :: 0 <= j < |others| ==>
              r.1[j] == others[j].(items := others[j].items + Routed(m, m.items, j, relief, modulus))
    ensures TotalItems(r.1) == TotalItems(others) + |m.items|
  {
    (m.(items := [], thrown := m.thrown + |m.items|), Deliver(m, m.items, others, relief, modulus))
  }

  /** Every monkey can throw: divisors are non-zero and catchers exist. */
  predicate Valid(ms: seq<Monkey>)
  {
    forall i :: 0 <= i < |ms| ==> CanThrow(ms[i], |ms|)
  }

  /** The same monkey, up to held items and counter. */
  predicate SameMonkey(m: Monkey, m': Monkey)
  {
    && m.operation == m'.operation
    && m.divisor == m'.divisor
    && m.ifTrue == m'.ifTrue
    && m.ifFalse == m'.ifFalse
  }

  /** The two states have the same monkeys, up to held items and counters. */
  predicate SameRules(a: seq<Monkey>, b: seq<Monkey>)
  {
    |a| == |b| && forall i :: 0 <= i < |a| ==> SameMonkey(a[i], b[i])
  }

  /**
   * Monkey `idx`'s turn: take it out (leaving the default monkey), throw,
   * and put it back. Items it throws to itself land on the placeholder and
   * are lost when it is put back.
   */
  function Turn(ms: seq<Monkey>, idx: nat, relief: bool, modulus: Option<nat>): (r: seq<Monkey>)
    requires idx < |ms| && Valid(ms) && ModulusOk(modulus)
    ensures SameRules(r, ms) && Valid(r)
    ensures r[idx].items == [] && r[idx].thrown == ms[idx].thrown + |ms[idx].items|
    ensures forall j :: 0 <= j < |ms| && j != idx ==>
              && r[j].items == ms[j].items + Routed(ms[idx], ms[idx].items, j, relief, modulus)
              && r[j].thrown == ms[j].thrown
  {
    var thrown := Throw(ms[idx], ms[idx := DEFAULT], relief, modulus);
    TurnFacts(ms, idx, relief, modulus, thrown);
    thrown.1[idx := thrown.0]
  }

  /** The monkeys after a turn, as `Turn` promises them. */
  lemma TurnFacts(ms: seq<Monkey>, idx: nat, relief: bool, modulus: Option<nat>, thrown: (Monkey, seq<Monkey>))
    requires idx < |ms| && Valid(ms) && ModulusOk(modulus)
    requires thrown == Throw(ms[idx], ms[idx := DEFAULT], relief, modulus)
    ensures var r := thrown.1[idx := thrown.0];
            && |r| == |ms|
            && SameRules(r, ms) && Valid(r)
            && r[idx].items == [] && r[idx].thrown == ms[idx].thrown + |ms[idx].items|
            && (forall j :: 0 <= j < |ms| && j != idx ==>
                  && r[j].items == ms[j].items + Routed(ms[idx], ms[idx].items, j, relief, modulus)
                  && r[j].thrown == ms[j].thrown)
  {
    var m := ms[idx];
    var taken := ms[idx := DEFAULT];
    var (done, others) := thrown;
    var r := others[idx := done];
    forall j | 0 <= j < |ms| && j != idx
      ensures r[j] == ms[j].(items := ms[j].items + Routed(m, m.items, j, relief, modulus))
    {
      assert taken[j] == ms[j];
    }
    assert SameRules(r, ms);
  }

  /** The items after a turn: all but those the monkey threw to itself. */
  lemma TurnItems(ms: seq<Monkey>, idx: nat, relief: bool, modulus: Option<nat>, thrown: (Monkey, seq<Monkey>))
    requires idx < |ms| && Valid(ms) && ModulusOk(modulus)
    requires thrown == Throw(ms[idx], ms[idx := DEFAULT], relief, modulus)
    ensures TotalItems(thrown.1[idx := thrown.0])
            == TotalItems(ms) - |Routed(ms[idx], ms[idx].items, idx, relief, modulus)|
  {
    var m := ms[idx];
    var (done, others) := thrown;
    TotalItemsUpdate(ms, idx, DEFAULT);
    TotalItemsUpdate(others, idx, done);
    assert others[idx].items == Routed(m, m.items, idx, relief, modulus);
  }

  /** No monkey throws to itself. */
  predicate NoSelfTargets(ms: seq<Monkey>)
  {
    forall i :: 0 <= i < |ms| ==> ms[i].ifTrue != i && ms[i].ifFalse != i
  }

  /** The turns of monkeys `idx`, `idx + 1`, … of one round. */
  function RoundFrom(ms: seq<Monkey>, idx: nat, relief: bool, modulus: Option<nat>): (r: seq<Monkey>)
    requires idx <= |ms| && Valid(ms) && ModulusOk(modulus)
    ensures SameRules(r, ms) && Valid(r)
    decreases |ms| - idx
  {
    if idx == |ms| then ms
    else RoundFrom(Turn(ms, idx, relief, modulus), idx + 1, relief, modulus)
  }

  /** One round: every monkey takes its turn, in index order. */
  function Round(ms: seq<Monkey>, relief: bool, modulus: Option<nat>): (r: seq<Monkey>)
    requires Valid(ms) && ModulusOk(modulus)
    ensures SameRules(r, ms) && Valid(r)
  {
    RoundFrom(ms, 0, relief, modulus)
  }

  /** `n` rounds. */
  function Rounds(ms: seq<Monkey>, n: nat, relief: bool, modulus: Option<nat>): (r: seq<Monkey>)
    requires Valid(ms) && ModulusOk(modulus)
    ensures SameRules(r, ms) && Valid(r)
    decreases n
  {
    if n == 0 then ms else Round(Rounds(ms, n - 1, relief, modulus), relief, modulus)
  }

  /** A turn loses exactly the items the monkey throws to itself. */
  lemma TurnTotal(ms: seq<Monkey>, idx: nat, relief: bool, modulus: Option<nat>)
    requires idx < |ms| && Valid(ms) && ModulusOk(modulus)
    ensures TotalItems(Turn(ms, idx, relief, modulus))
            == TotalItems(ms) - |Routed(ms[idx], ms[idx].items, idx, relief, modulus)|
  {
    TurnItems(ms, idx, relief, modulus, Throw(ms[idx], ms[idx := DEFAULT], relief, modulus));
  }

  /** When no monkey throws to itself, the rest of a round keeps every item. */
  lemma {:induction false} RoundFromTotal(ms: seq<Monkey>, idx: nat, relief: bool, modulus: Option<nat>)
    requires idx <= |ms| && Valid(ms) && ModulusOk(modulus) && NoSelfTargets(ms)
    ensures TotalItems(RoundFrom(ms, idx, relief, modulus)) == TotalItems(ms)
    decreases |ms| - idx
  {
    if idx < |ms| {
      var next := Turn(ms, idx, relief, modulus);
      TurnTotal(ms, idx, relief, modulus);
      NoSelfTargetsKept(ms, next);
      RoundFromTotal(next, idx + 1, relief, modulus);
    }
  }

  /** When no monkey throws to itself, rounds keep every item. */
  lemma RoundsTotal(ms: seq<Monkey>, n: nat, relief: bool, modulus: Option<nat>)
    requires Valid(ms) && ModulusOk(modulus) && NoSelfTargets(ms)
    ensures TotalItems(Rounds(ms, n, relief, modulus)) == TotalItems(ms)
  {
    var cur, k := ms, 0;
    while k < n
      invariant k <= n && cur == Rounds(ms, k, relief, modulus) && TotalItems(cur) == TotalItems(ms)
    {
      NoSelfTargetsKept(ms, cur);
      RoundFromTotal(cur, 0, relief, modulus);
      cur, k := Round(cur, relief, modulus), k + 1;
    }
  }

  lemma NoSelfTargetsKept(a: seq<Monkey>, b: seq<Monkey>)
    requires NoSelfTargets(a) && SameRules(b, a)
    ensures NoSelfTargets(b)
  {
    forall i | 0 <= i < |b|
      ensures b[i].ifTrue != i && b[i].ifFalse != i
    {
      assert SameMonkey(b[i], a[i]);
    }
  }

  /** The throw counters. */
  function Counts(ms: seq<Monkey>): (c: seq<int>)
    ensures |c| == |ms|
    ensures forall i :: 0 <= i < |ms| ==> c[i] == ms[i].thrown
  {
    seq(|ms|, i requires 0 <= i < |ms| => ms[i].thrown)
  }

  /** `Iterator::product`; the product of nothing is 1. */
  function Product(s: seq<int>): int
  {
    if |s| == 0 then 1 else s[0] * Product(s[1..])
  }

  /** `n_highest::<2>().product()` of the throw counters. */
  function MonkeyBusiness(ms: seq<Monkey>): (r: int)
    ensures var top := Drain(New(Counts(ms), 2));
            && |top| == Min(2, |ms|)
            && IsTopN(multiset(top), Counts(ms), 2)
            && r == Product(top)
  {
    Product(Drain(New(Counts(ms), 2)))
  }

  /** A multiple of `d` times anything is a multiple of `d`. */
  lemma MultipleTimes(a: nat, b: nat, d: nat)
    requires d > 0 && a % d == 0
    ensures (a * b) % d == 0
  {
    var k := a / d;
    assert a == d * k;
    assert a * b == d * (k * b) + 0;
    ModUnique(a * b, d, k * b, 0);
  }

  /** `divider`: the product of every test divisor; each divisor divides it. */
  function Divider(ms: seq<Monkey>): (p: nat)
    requires forall i :: 0 <= i < |ms| ==> ms[i].divisor > 0
    ensures p > 0
    ensures forall i :: 0 <= i < |ms| ==> p % ms[i].divisor == 0
  {
    if |ms| == 0 then 1
    else
      var rest := Divider(ms[1..]);
      var p := ms[0].divisor * rest;
      assert p % ms[0].divisor == 0 by {
        ModUnique(p, ms[0].divisor, rest, 0);
      }
      forall i | 1 <= i < |ms|
        ensures p % ms[i].divisor == 0
      {
        assert ms[1..][i - 1] == ms[i];
        MultipleTimes(rest, ms[0].divisor, ms[i].divisor);
        assert rest * ms[0].divisor == p;
      }
      p
  }

  /** `x * k` leaves the same remainder as `(x % p) * k`. */
  lemma MulMod(x: nat, k: nat, p: nat)
    requires p > 0
    ensures (x * k) % p == ((x % p) * k) % p
  {
    var q, r := x / p, x % p;
    var rk := r * k;
    assert x * k == p * (q * k) + rk;
    assert x * k == p * (q * k + rk / p) + rk % p;
    ModUnique(x * k, p, q * k + rk / p, rk % p);
  }

  /** `x + k` leaves the same remainder as `(x % p) + k`. */
  lemma AddMod(x: nat, k: nat, p: nat)
    requires p > 0
    ensures (x + k) % p == ((x % p) + k) % p
  {
    var q, r := x / p, x % p;
    var rk := r + k;
    assert x + k == p * (q + rk / p) + rk % p;
    ModUnique(x + k, p, q + rk / p, rk % p);
  }

  /** Reducing modulo a multiple `p` of `d` keeps the remainder modulo `d`. */
  lemma ModOfMultiple(a: nat, p: nat, d: nat)
    requires d > 0 && p > 0 && p % d == 0
    ensures (a % p) % d == a % d
  {
    var q, r := a / p, a % p;
    var k := p / d;
    assert p == d * k;
    assert a == d * (k * q) + r;
    assert a == d * (k * q + r / d) + r % d;
    ModUnique(a, d, k * q + r / d, r % d);
  }

  /** Every operation maps levels with equal remainders modulo `p` to such levels. */
  lemma ApplyCongruent(op: Operation, x: nat, y: nat, p: nat)
    requires p > 0 && x % p == y % p
    ensures Apply(op, x) % p == Apply(op, y) % p
  {
    match op {
      case Multiply(k) =>
        MulMod(x, k, p);
        MulMod(y, k, p);
      case Square =>
        MulMod(x, x, p);
        MulMod(x, x % p, p);
        MulMod(y, y, p);
        MulMod(y, y % p, p);
        assert (x % p) * x == x * (x % p);
        assert (y % p) * y == y * (y % p);
        assert (x % p) * (x % p) == (y % p) * (y % p);
      case Add(k) =>
        AddMod(x, k, p);
        AddMod(y, k, p);
    }
  }

  /** The remainders modulo `p` of a queue's levels. */
  function Residues(xs: seq<nat>, p: nat): (r: seq<nat>)
    requires p > 0
    ensures |r| == |xs|
    ensures forall k :: 0 <= k < |xs| ==> r[k] == xs[k] % p
  {
    seq(|xs|, k requires 0 <= k < |xs| => xs[k] % p)
  }

  /** Two queues whose levels agree modulo `p`, position by position. */
  predicate Congruent(xs: seq<nat>, ys: seq<nat>, p: nat)
    requires p > 0
  {
    Residues(xs, p) == Residues(ys, p)
  }

  /** `p` is a multiple of every test divisor. */
  predicate DividesAll(ms: seq<Monkey>, p: nat)
  {
    forall i :: 0 <= i < |ms| ==> ms[i].divisor > 0 && p % ms[i].divisor == 0
  }

  /**
   * Without the division by 3, a reduced and an unreduced level that agree
   * modulo `p` are inspected to levels that agree modulo `p`, and go to the
   * same monkey.
   */
  lemma InspectCongruent(m: Monkey, m': Monkey, x: nat, y: nat, p: nat)
    requires SameMonkey(m, m')
    requires p > 0 && m.divisor > 0 && p % m.divisor == 0 && x % p == y % p
    ensures Inspect(m, x, false, Some(p)) % p == Inspect(m', y, false, None) % p
    ensures Target(m, Inspect(m, x, false, Some(p))) == Target(m', Inspect(m', y, false, None))
  {
    var a, b := Apply(m.operation, x), Apply(m.operation, y);
    ApplyCongruent(m.operation, x, y, p);
    var ia, ib := Inspect(m, x, false, Some(p)), Inspect(m', y, false, None);
    assert ia == a % p;
    assert ib == b;
    ModUnique(a % p, p, 0, a % p);
    ModOfMultiple(a, p, m.divisor);
    ModOfMultiple(b, p, m.divisor);
    assert ia % m.divisor == ib % m.divisor;
  }

  /** The items routed to `j` from congruent queues are congruent. */
  lemma {:induction false} RoutedCongruent(m: Monkey, m': Monkey, xs: seq<nat>, ys: seq<nat>, j: nat, p: nat)
    requires SameMonkey(m, m')
    requires p > 0 && m.divisor > 0 && p % m.divisor == 0 && Congruent(xs, ys, p)
    ensures Congruent(Routed(m, xs, j, false, Some(p)), Routed(m', ys, j, false, None), p)
  {
    if |xs| > 0 {
      InspectCongruent(m, m', xs[0], ys[0], p);
      RoutedCongruent(m, m', xs[1..], ys[1..], j, p);
      var a := Inspect(m, xs[0], false, Some(p));
      var b := Inspect(m', ys[0], false, None);
      var restA := Routed(m, xs[1..], j, false, Some(p));
      var restB := Routed(m', ys[1..], j, false, None);
      var hereA: seq<nat> := if Target(m, a) == j then [a] else [];
      var hereB: seq<nat> := if Target(m', b) == j then [b] else [];
      ConcatCongruent(hereA, restA, hereB, restB, p);
    }
  }

  lemma ConcatCongruent(xs: seq<nat>, xs': seq<nat>, ys: seq<nat>, ys': seq<nat>, p: nat)
    requires p > 0 && Congruent(xs, ys, p) && Congruent(xs', ys', p)
    ensures Congruent(xs + xs', ys + ys', p)
  {
    assert Residues(xs + xs', p) == Residues(xs, p) + Residues(xs', p);
    assert Residues(ys + ys', p) == Residues(ys, p) + Residues(ys', p);
  }

  /** A monkey as seen modulo `p`: its rules, its counter and the remainders of its levels. */
  datatype View = View(rules: (Operation, nat, nat, nat), thrown: nat, residues: seq<nat>)

  function ViewOf(m: Monkey, p: nat): View
    requires p > 0
  {
    View((m.operation, m.divisor, m.ifTrue, m.ifFalse), m.thrown, Residues(m.items, p))
  }

  /** The whole state as seen modulo `p`. */
  function Snapshot(ms: seq<Monkey>, p: nat): (v: seq<View>)
    requires p > 0
    ensures |v| == |ms|
  {
    seq(|ms|, i requires 0 <= i < |ms| => ViewOf(ms[i], p))
  }

  /**
   * The reduced state `a` mirrors the unreduced state `b`: same monkeys, same
   * counters, and held levels that agree modulo `p`.
   */
  predicate Mirrors(a: seq<Monkey>, b: seq<Monkey>, p: nat)
    requires p > 0
  {
    Snapshot(a, p) == Snapshot(b, p)
  }

  /** What mirroring says about one monkey. */
  lemma MirrorsAt(a: seq<Monkey>, b: seq<Monkey>, p: nat, i: nat)
    requires p > 0 && Mirrors(a, b, p) && i < |a|
    ensures |b| == |a|
    ensures SameMonkey(a[i], b[i]) && a[i].thrown == b[i].thrown && Congruent(a[i].items, b[i].items, p)
  {
    assert Snapshot(a, p)[i] == Snapshot(b, p)[i];
  }

  lemma MirrorsKeepRules(a: seq<Monkey>, b: seq<Monkey>, p: nat)
    requires p > 0 && Valid(a) && DividesAll(a, p) && Mirrors(a, b, p)
    ensures Valid(b) && DividesAll(b, p) && SameRules(a, b)
  {
    forall i | 0 <= i < |a|
      ensures CanThrow(b[i], |b|) && SameMonkey(a[i], b[i]) && p % b[i].divisor == 0
    {
      MirrorsAt(a, b, p, i);
      assert CanThrow(a[i], |a|);
    }
  }

  lemma DividesAllKept(a: seq<Monkey>, b: seq<Monkey>, p: nat)
    requires SameRules(a, b) && DividesAll(b, p)
    ensures DividesAll(a, p)
  {
    forall i | 0 <= i < |a|
      ensures a[i].divisor > 0 && p % a[i].divisor == 0
    {
      assert a[i].divisor == b[i].divisor;
    }
  }

  /** A turn without the division by 3 keeps the mirror. */
  lemma TurnMirrors(a: seq<Monkey>, b: seq<Monkey>, idx: nat, p: nat)
    requires p > 0 && idx < |a| && Valid(a) && DividesAll(a, p) && Mirrors(a, b, p)
    ensures Valid(b)
    ensures Mirrors(Turn(a, idx, false, Some(p)), Turn(b, idx, false, None), p)
  {
    MirrorsKeepRules(a, b, p);
    var ra, rb := Turn(a, idx, false, Some(p)), Turn(b, idx, false, None);
    forall j | 0 <= j < |a|
      ensures ViewOf(ra[j], p) == ViewOf(rb[j], p)
    {
      MirrorsAt(a, b, p, j);
      assert SameMonkey(ra[j], a[j]) && SameMonkey(rb[j], b[j]);
      if j == idx {
        assert ra[j].items == [] && rb[j].items == [];
      } else {
        assert CanThrow(a[idx], |a|);
        MirrorsAt(a, b, p, idx);
        RoutedCongruent(a[idx], b[idx], a[idx].items, b[idx].items, j, p);
        ConcatCongruent(a[j].items, Routed(a[idx], a[idx].items, j, false, Some(p)),
                        b[j].items, Routed(b[idx], b[idx].items, j, false, None), p);
      }
    }
    assert Snapshot(ra, p) == Snapshot(rb, p);
  }

  lemma {:induction false} RoundFromMirrors(a: seq<Monkey>, b: seq<Monkey>, idx: nat, p: nat)
    requires p > 0 && idx <= |a| && Valid(a) && DividesAll(a, p) && Mirrors(a, b, p)
    ensures Valid(b)
    ensures Mirrors(RoundFrom(a, idx, false, Some(p)), RoundFrom(b, idx, false, None), p)
    decreases |a| - idx
  {
    MirrorsKeepRules(a, b, p);
    if idx < |a| {
      var ta, tb := Turn(a, idx, false, Some(p)), Turn(b, idx, false, None);
      TurnMirrors(a, b, idx, p);
      assert Valid(ta) && Mirrors(ta, tb, p);
      assert DividesAll(ta, p) by {
        DividesAllKept(ta, a, p);
      }
      assert idx + 1 <= |ta|;
      RoundFromMirrors(ta, tb, idx + 1, p);
      var ra, rb := RoundFrom(ta, idx + 1, false, Some(p)), RoundFrom(tb, idx + 1, false, None);
      assert Mirrors(ra, rb, p);
      assert RoundFrom(a, idx, false, Some(p)) == ra;
      assert RoundFrom(b, idx, false, None) == rb;
    } else {
      assert RoundFrom(a, idx, false, Some(p)) == a;
      assert RoundFrom(b, idx, false, None) == b;
    }
  }

  /** `n` rounds without the division by 3 keep the mirror. */
  lemma RoundsMirror(a: seq<Monkey>, b: seq<Monkey>, n: nat, p: nat)
    requires p > 0 && Valid(a) && DividesAll(a, p) && Mirrors(a, b, p)
    ensures Valid(b)
    ensures Mirrors(Rounds(a, n, false, Some(p)), Rounds(b, n, false, None), p)
  {
    MirrorsKeepRules(a, b, p);
    var ca, cb, k := a, b, 0;
    while k < n
      invariant k <= n && Valid(ca) && Valid(cb)
      invariant ca == Rounds(a, k, false, Some(p)) && cb == Rounds(b, k, false, None)
      invariant DividesAll(ca, p) && Mirrors(ca, cb, p)
    {
      RoundMirrors(ca, cb, p);
      ca, cb, k := Round(ca, false, Some(p)), Round(cb, false, None), k + 1;
    }
  }

  /** One round without the division by 3 keeps the mirror and the divisibility. */
  lemma RoundMirrors(a: seq<Monkey>, b: seq<Monkey>, p: nat)
    requires p > 0 && Valid(a) && DividesAll(a, p) && Mirrors(a, b, p)
    ensures Valid(b)
    ensures Valid(Round(a, false, Some(p))) && DividesAll(Round(a, false, Some(p)), p)
    ensures Mirrors(Round(a, false, Some(p)), Round(b, false, None), p)
  {
    MirrorsKeepRules(a, b, p);
    RoundFromMirrors(a, b, 0, p);
    DividesAllKept(Round(a, false, Some(p)), a, p);
  }

  /**
   * Part two's reduction is sound: keeping levels modulo the product of the
   * divisors throws exactly as often as keeping them whole.
   */
  lemma ReductionSound(ms: seq<Monkey>, n: nat)
    requires Valid(ms)
    ensures Counts(Rounds(ms, n, false, Some(Divider(ms)))) == Counts(Rounds(ms, n, false, None))
  {
    var p := Divider(ms);
    RoundsMirror(ms, ms, n, p);
    MirrorsCounts(Rounds(ms, n, false, Some(p)), Rounds(ms, n, false, None), p);
  }

  lemma MirrorsCounts(a: seq<Monkey>, b: seq<Monkey>, p: nat)
    requires p > 0 && Mirrors(a, b, p)
    ensures Counts(a) == Counts(b)
  {
    forall i | 0 <= i < |a|
      ensures a[i].thrown == b[i].thrown
    {
      MirrorsAt(a, b, p, i);
    }
  }

  /** No monkey holds an item. */
  predicate Itemless(ms: seq<Monkey>)
  {
    forall i :: 0 <= i < |ms| ==> ms[i].items == []
  }

  /** A monkey with nothing to throw leaves the state as it was. */
  lemma TurnEmpty(ms: seq<Monkey>, idx: nat, relief: bool, modulus: Option<nat>)
    requires idx < |ms| && Valid(ms) && ModulusOk(modulus) && ms[idx].items == []
    ensures Turn(ms, idx, relief, modulus) == ms
  {
    var r := Turn(ms, idx, relief, modulus);
    forall j | 0 <= j < |ms|
      ensures r[j] == ms[j]
    {
      assert SameMonkey(r[j], ms[j]);
    }
  }

  lemma {:induction false} RoundFromItemless(ms: seq<Monkey>, idx: nat, relief: bool, modulus: Option<nat>)
    requires idx <= |ms| && Valid(ms) && ModulusOk(modulus) && Itemless(ms)
    ensures RoundFrom(ms, idx, relief, modulus) == ms
    decreases |ms| - idx
  {
    if idx < |ms| {
      TurnEmpty(ms, idx, relief, modulus);
      RoundFromItemless(ms, idx + 1, relief, modulus);
    }
  }

  /** Once no monkey holds an item, further rounds change nothing. */
  lemma RoundsSettle(ms: seq<Monkey>, k: nat, n: nat, relief: bool, modulus: Option<nat>)
    requires Valid(ms) && ModulusOk(modulus) && k <= n
    requires Itemless(Rounds(ms, k, relief, modulus))
    ensures Rounds(ms, n, relief, modulus) == Rounds(ms, k, relief, modulus)
  {
    var j := k;
    while j < n
      invariant k <= j <= n && Rounds(ms, j, relief, modulus) == Rounds(ms, k, relief, modulus)
    {
      RoundsStill(ms, j + 1, Rounds(ms, j, relief, modulus), relief, modulus);
      j := j + 1;
    }
  }

  lemma RoundsStill(ms: seq<Monkey>, n: nat, prev: seq<Monkey>, relief: bool, modulus: Option<nat>)
    requires Valid(ms) && ModulusOk(modulus) && n > 0
    requires prev == Rounds(ms, n - 1, relief, modulus) && Itemless(prev)
    ensures Rounds(ms, n, relief, modulus) == prev
  {
    RoundFromItemless(prev, 0, relief, modulus);
  }

  /** `part1`, corrected: twenty rounds with relief and whole worry levels. */
  function Part1(ms: seq<Monkey>): (r: int)
    requires Valid(ms)
    ensures var top := Drain(New(Counts(Rounds(ms, 20, true, None)), 2));
            && IsTopN(multiset(top), Counts(Rounds(ms, 20, true, None)), 2)
            && r == Product(top)
  {
    MonkeyBusiness(Rounds(ms, 20, true, None))
  }

  /**
   * `part1` as written: twenty rounds with relief, each level also reduced
   * modulo the product of the divisors after the division by 3.
   */
  function Part1AsWritten(ms: seq<Monkey>): (r: int)
    requires Valid(ms)
    ensures var top := Drain(New(Counts(Rounds(ms, 20, true, Some(Divider(ms)))), 2));
            && IsTopN(multiset(top), Counts(Rounds(ms, 20, true, Some(Divider(ms)))), 2)
            && r == Product(top)
  {
    MonkeyBusiness(Rounds(ms, 20, true, Some(Divider(ms))))
  }

  /**
   * `part2`: ten thousand rounds without relief, levels reduced modulo the
   * product of the divisors; the answer is the one whole levels give.
   */
  function Part2(ms: seq<Monkey>): (r: int)
    requires Valid(ms)
    ensures r == MonkeyBusiness(Rounds(ms, 10000, false, None))
  {
    ReductionSound(ms, 10000);
    MonkeyBusiness(Rounds(ms, 10000, false, Some(Divider(ms))))
  }

  /**
   * Three monkeys on which part one's reduction changes the answer. Monkey 0
   * holds one item of level 6; monkey 2 throws to itself, so items it
   * inspects are lost.
   */
  const EXAMPLE: seq<Monkey> := ExampleState([6], [], [], 0, 0, 0)

  /**
   * When the largest count occurs at least twice, the top two are that count
   * twice, whichever copies are kept.
   */
  lemma TopTwoOfMax(top: seq<int>, xs: seq<int>, v: int)
    requires |top| == 2 && IsTopN(multiset(top), xs, 2)
    requires multiset(xs)[v] >= 2
    requires forall i :: 0 <= i < |xs| ==> xs[i] <= v
    ensures top == [v, v]
  {
    assert top == [top[0], top[1]];
    assert multiset(top) == multiset{top[0], top[1]};
    forall k | 0 <= k < 2
      ensures top[k] == v
    {
      var x := top[k];
      assert x in multiset(xs);
      assert x != v ==> multiset(top)[v] <= 1;
      assert x != v ==> v in multiset(xs) - multiset(top);
      assert x in multiset(top);
    }
  }

  /**
   * The monkeys of `EXAMPLE` with the given queues and counters: monkey 0
   * multiplies by 3, tests divisibility by 2 and throws to 1 or 2; monkey 1
   * adds 1, tests by 2 and throws to 0 or 2; monkey 2 adds 0, tests by 1
   * and throws to itself either way.
   */
  function ExampleState(q0: seq<nat>, q1: seq<nat>, q2: seq<nat>, t0: nat, t1: nat, t2: nat): (ms: seq<Monkey>)
  {
    [Monkey(q0, Multiply(3), 2, 1, 2, t0), Monkey(q1, Add(1), 2, 0, 2, t1), Monkey(q2, Add(0), 1, 2, 2, t2)]
  }

  /**
   * A turn of a monkey holding one item: its counter grows by one and the
   * item, inspected, joins its target's queue, unless it throws to itself.
   */
  lemma TurnSingle(ms: seq<Monkey>, idx: nat, relief: bool, modulus: Option<nat>, level: nat, t: nat)
    requires idx < |ms| && Valid(ms) && ModulusOk(modulus) && |ms[idx].items| == 1
    requires level == Inspect(ms[idx], ms[idx].items[0], relief, modulus) && t == Target(ms[idx], level)
    ensures var done := ms[idx := ms[idx].(items := [], thrown := ms[idx].thrown + 1)];
            Turn(ms, idx, relief, modulus) == if t == idx then done else done[t := Catch(ms[t], level)]
  {
    var r := Turn(ms, idx, relief, modulus);
    var done := ms[idx := ms[idx].(items := [], thrown := ms[idx].thrown + 1)];
    var want := if t == idx then done else done[t := Catch(ms[t], level)];
    forall j | 0 <= j < |ms|
      ensures r[j] == want[j]
    {
      assert SameMonkey(r[j], ms[j]);
      if j != idx {
        assert Routed(ms[idx], ms[idx].items, j, relief, modulus) == if t == j then [level] else [];
      }
    }
  }

  /** One turn of `EXAMPLE`'s monkey `idx` holding one item. */
  lemma ExampleTurn(before: seq<Monkey>, idx: nat, relief: bool, modulus: Option<nat>, level: nat, t: nat,
                    after: seq<Monkey>)
    requires idx < 3 && |before| == 3 && ModulusOk(modulus)
    requires before == ExampleState(before[0].items, before[1].items, before[2].items,
                                    before[0].thrown, before[1].thrown, before[2].thrown)
    requires |before[idx].items| == 1
    requires level == Inspect(before[idx], before[idx].items[0], relief, modulus)
    requires t == Target(before[idx], level)
    requires var done := before[idx := before[idx].(items := [], thrown := before[idx].thrown + 1)];
             after == if t == idx then done else done[t := Catch(before[t], level)]
    ensures Valid(before) && Turn(before, idx, relief, modulus) == after
  {
    TurnSingle(before, idx, relief, modulus, level, t);
  }

  /** A round of three monkeys is their three turns in order. */
  lemma RoundOfThree(ms: seq<Monkey>, a: seq<Monkey>, b: seq<Monkey>, c: seq<Monkey>,
                     relief: bool, modulus: Option<nat>)
    requires |ms| == 3 && Valid(ms) && ModulusOk(modulus)
    requires Turn(ms, 0, relief, modulus) == a
    requires Turn(a, 1, relief, modulus) == b
    requires Turn(b, 2, relief, modulus) == c
    ensures Round(ms, relief, modulus) == c
  {
    assert RoundFrom(ms, 0, relief, modulus) == RoundFrom(a, 1, relief, modulus);
    assert RoundFrom(a, 1, relief, modulus) == RoundFrom(b, 2, relief, modulus);
    assert RoundFrom(b, 2, relief, modulus) == RoundFrom(c, 3, relief, modulus);
  }

  /** One and two rounds are one and two applications of `Round`. */
  lemma RoundsOfTwo(ms: seq<Monkey>, a: seq<Monkey>, b: seq<Monkey>, relief: bool, modulus: Option<nat>)
    requires Valid(ms) && ModulusOk(modulus)
    requires Round(ms, relief, modulus) == a
    requires Valid(a) && Round(a, relief, modulus) == b
    ensures Rounds(ms, 1, relief, modulus) == a
    ensures Rounds(ms, 2, relief, modulus) == b
  {
    assert Rounds(ms, 1, relief, modulus) == Round(Rounds(ms, 0, relief, modulus), relief, modulus);
  }

  /** With whole levels, round one takes the item from monkey 0 to 1 and back. */
  lemma ExampleWholeRound1(t0: nat, t1: nat, t2: nat)
    ensures Valid(ExampleState([6], [], [], t0, t1, t2))
    ensures Round(ExampleState([6], [], [], t0, t1, t2), true, None) == ExampleState([2], [], [], t0 + 1, t1 + 1, t2)
  {
    var s0 := ExampleState([6], [], [], t0, t1, t2);
    var s1 := ExampleState([], [6], [], t0 + 1, t1, t2);
    var s2 := ExampleState([2], [], [], t0 + 1, t1 + 1, t2);
    ExampleTurn(s0, 0, true, None, 6, 1, s1);
    ExampleTurn(s1, 1, true, None, 2, 0, s2);
    TurnEmpty(s2, 2, true, None);
    RoundOfThree(s0, s1, s2, s2, true, None);
  }

  /** With whole levels, round two takes the item to monkey 1, then 2, which loses it. */
  lemma ExampleWholeRound2(t0: nat, t1: nat, t2: nat)
    ensures Valid(ExampleState([2], [], [], t0, t1, t2))
    ensures Round(ExampleState([2], [], [], t0, t1, t2), true, None) == ExampleState([], [], [], t0 + 1, t1 + 1, t2 + 1)
  {
    var s0 := ExampleState([2], [], [], t0, t1, t2);
    var s1 := ExampleState([], [2], [], t0 + 1, t1, t2);
    var s2 := ExampleState([], [], [1], t0 + 1, t1 + 1, t2);
    var s3 := ExampleState([], [], [], t0 + 1, t1 + 1, t2 + 1);
    ExampleTurn(s0, 0, true, None, 2, 1, s1);
    ExampleTurn(s1, 1, true, None, 1, 2, s2);
    ExampleTurn(s2, 2, true, None, 0, 2, s3);
    RoundOfThree(s0, s1, s2, s3, true, None);
  }

  /**
   * Reduced modulo 4 after the division, the item reaches monkey 1 with
   * level 2 instead of 6, goes on to 2, and is lost in round one.
   */
  lemma ExampleReducedRound1(t0: nat, t1: nat, t2: nat)
    ensures Valid(ExampleState([6], [], [], t0, t1, t2))
    ensures Round(ExampleState([6], [], [], t0, t1, t2), true, Some(4))
            == ExampleState([], [], [], t0 + 1, t1 + 1, t2 + 1)
  {
    var s0 := ExampleState([6], [], [], t0, t1, t2);
    var s1 := ExampleState([], [2], [], t0 + 1, t1, t2);
    var s2 := ExampleState([], [], [1], t0 + 1, t1 + 1, t2);
    var s3 := ExampleState([], [], [], t0 + 1, t1 + 1, t2 + 1);
    ExampleTurn(s0, 0, true, Some(4), 2, 1, s1);
    ExampleTurn(s1, 1, true, Some(4), 1, 2, s2);
    ExampleTurn(s2, 2, true, Some(4), 0, 2, s3);
    RoundOfThree(s0, s1, s2, s3, true, Some(4));
  }

  /** With whole levels, two or more rounds from monkey 0 holding 6 add 2, 2 and 1 to the counts. */
  lemma ExampleWholeFrom(t0: nat, t1: nat, t2: nat, n: nat)
    requires n >= 2
    ensures Valid(ExampleState([6], [], [], t0, t1, t2))
    ensures Rounds(ExampleState([6], [], [], t0, t1, t2), n, true, None)
            == ExampleState([], [], [], t0 + 2, t1 + 2, t2 + 1)
  {
    var s0 := ExampleState([6], [], [], t0, t1, t2);
    var s2 := ExampleState([], [], [], t0 + 2, t1 + 2, t2 + 1);
    ExampleWholeTwo(t0, t1, t2);
    assert Itemless(s2);
    RoundsSettle(s0, 2, n, true, None);
  }

  /** With whole levels, the first two rounds from monkey 0 holding 6. */
  lemma ExampleWholeTwo(t0: nat, t1: nat, t2: nat)
    ensures Valid(ExampleState([6], [], [], t0, t1, t2))
    ensures Rounds(ExampleState([6], [], [], t0, t1, t2), 2, true, None)
            == ExampleState([], [], [], t0 + 2, t1 + 2, t2 + 1)
  {
    var s1 := ExampleState([2], [], [], t0 + 1, t1 + 1, t2);
    ExampleWholeRound1(t0, t1, t2);
    ExampleWholeRound2(t0 + 1, t1 + 1, t2);
    RoundsOfTwo(ExampleState([6], [], [], t0, t1, t2), s1, ExampleState([], [], [], t0 + 2, t1 + 2, t2 + 1), true, None);
  }

  /** Reduced as written, one or more rounds from monkey 0 holding 6 add one to each count. */
  lemma ExampleReducedFrom(t0: nat, t1: nat, t2: nat, n: nat)
    requires n >= 1
    ensures Valid(ExampleState([6], [], [], t0, t1, t2))
    ensures Rounds(ExampleState([6], [], [], t0, t1, t2), n, true, Some(4))
            == ExampleState([], [], [], t0 + 1, t1 + 1, t2 + 1)
  {
    var s0 := ExampleState([6], [], [], t0, t1, t2);
    var s1 := ExampleState([], [], [], t0 + 1, t1 + 1, t2 + 1);
    ExampleReducedRound1(t0, t1, t2);
    RoundFromItemless(s1, 0, true, Some(4));
    RoundsOfTwo(s0, s1, s1, true, Some(4));
    RoundsSettle(s0, 1, n, true, Some(4));
  }

  /** With whole levels, any two or more rounds (part one plays twenty) end with counts 2, 2 and 1 and no items. */
  lemma ExampleWhole(n: nat)
    requires n >= 2
    ensures Valid(EXAMPLE)
    ensures Rounds(EXAMPLE, n, true, None) == ExampleState([], [], [], 2, 2, 1)
  {
    ExampleWholeFrom(0, 0, 0, n);
  }

  /** Reduced as written, any one or more rounds end with counts 1, 1 and 1 and no items. */
  lemma ExampleReduced(n: nat)
    requires n >= 1
    ensures Valid(EXAMPLE) && Divider(EXAMPLE) == 4
    ensures Rounds(EXAMPLE, n, true, Some(4)) == ExampleState([], [], [], 1, 1, 1)
  {
    ExampleReducedFrom(0, 0, 0, n);
    ExampleDivider(0, 0, 0);
  }

  /** The divisors of `EXAMPLE` are 2, 2 and 1: part one reduces modulo 4. */
  lemma ExampleDivider(t0: nat, t1: nat, t2: nat)
    ensures Divider(ExampleState([6], [], [], t0, t1, t2)) == 4
  {
    var ms := ExampleState([6], [], [], t0, t1, t2);
    assert Divider(ms[2..]) == 1 by {
      assert Divider(ms[2..][1..]) == 1;
    }
    assert ms[1..][1..] == ms[2..];
  }

  /** Whole levels give throw counts 2, 2 and 1 on `EXAMPLE`, so part one's answer is 4. */
  lemma Part1Example()
    ensures Valid(EXAMPLE) && Part1(EXAMPLE) == 4
  {
    ExampleWhole(20);
    ExampleCounts([], [], [], 2, 2, 1);
    BusinessOfCounts(ExampleState([], [], [], 2, 2, 1), 2, 1);
  }

  /** The reduction as written gives counts 1, 1 and 1 on `EXAMPLE`, so part one answers 1. */
  lemma Part1AsWrittenExample()
    ensures Valid(EXAMPLE) && Part1AsWritten(EXAMPLE) == 1
  {
    ExampleReduced(20);
    ExampleCounts([], [], [], 1, 1, 1);
    BusinessOfCounts(ExampleState([], [], [], 1, 1, 1), 1, 1);
  }

  /** When the counts are `a`, `a` and `b` with `b <= a`, the monkey business is `a * a`. */
  lemma BusinessOfCounts(ms: seq<Monkey>, a: int, b: int)
    requires Counts(ms) == [a, a, b] && b <= a
    ensures MonkeyBusiness(ms) == a * a
  {
    var c := Counts(ms);
    assert multiset(c) == multiset{a, a, b};
    TopTwoProduct(c, a, b);
  }

  lemma TopTwoProduct(c: seq<int>, a: int, b: int)
    requires |c| == 3 && multiset(c) == multiset{a, a, b} && b <= a
    ensures Product(Drain(New(c, 2))) == a * a
  {
    DrainNew(c, 2);
    TopTwoOfCounts(Drain(New(c, 2)), c, a, b);
    assert Product([a, a]) == a * Product([a]);
  }

  /** The two largest of counts `a`, `a` and `b` with `b <= a` are `a` and `a`. */
  lemma TopTwoOfCounts(top: seq<int>, c: seq<int>, a: int, b: int)
    requires |c| == 3 && multiset(c) == multiset{a, a, b} && b <= a
    requires |top| == 2 && IsTopN(multiset(top), c, 2)
    ensures top == [a, a]
  {
    forall i | 0 <= i < |c|
      ensures c[i] <= a
    {
      assert c[i] in multiset(c);
    }
    TopTwoOfMax(top, c, a);
  }

  lemma ExampleCounts(q0: seq<nat>, q1: seq<nat>, q2: seq<nat>, t0: nat, t1: nat, t2: nat)
    ensures Counts(ExampleState(q0, q1, q2, t0, t1, t2)) == [t0, t1, t2]
  {
  }
}
