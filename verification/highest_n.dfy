/**
 * The bounded top-N selector `HighestN` of day 1, also used by day 11 as
 * `n_highest::<2>`.
 *
 * The selector owns a min-priority queue (a `BinaryHeap<Reverse<T>>`). Here
 * the queue is an unordered sequence: only its multiset of elements matters,
 * and the single way to take an element out is `Next`, which removes a
 * smallest one. The heap layout and which of several equal minima is removed
 * are not modelled.
 */
module HighestN {
  import opened Common

  /** Position of a smallest element of a non-empty queue. */
  function MinIndex(h: seq<int>): (i: nat)
    requires |h| > 0
    ensures i < |h|
    ensures forall j :: 0 <= j < |h| ==> h[i] <= h[j]
  {
    if |h| == 1 then 0
    else
      var k := MinIndex(h[1..]);
      if h[0] <= h[k + 1] then 0 else k + 1
  }

  /** The queue without the element at position `i`. */
  function RemoveAt(h: seq<int>, i: nat): (r: seq<int>)
    requires i < |h|
    ensures |r| == |h| - 1
    ensures multiset(r) + multiset{h[i]} == multiset(h)
  {
    assert h == h[..i] + [h[i]] + h[i + 1..];
    h[..i] + h[i + 1..]
  }

  /** Result of one pop: the element taken (if any) and the remaining queue. */
  datatype Popped = Popped(item: Option<int>, rest: seq<int>)

  /**
   * `Iterator::next` of `HighestN`: pop the queue. Because the queue holds
   * `Reverse<T>`, the element popped is a smallest one; an empty queue yields
   * `None` and stays empty.
   */
  function Next(h: seq<int>): (r: Popped)
    ensures |h| == 0 <==> r.item.None?
    ensures |h| == 0 ==> r.rest == []
    ensures r.item.Some? ==>
              && multiset(r.rest) + multiset{r.item.value} == multiset(h)
              && (forall j :: 0 <= j < |h| ==> r.item.value <= h[j])
              && (forall j :: 0 <= j < |r.rest| ==> r.item.value <= r.rest[j])
  {
    if |h| == 0 then Popped(None, [])
    else
      var i := MinIndex(h);
      var rest := RemoveAt(h, i);
      assert forall j :: 0 <= j < |rest| ==> rest[j] == (if j < i then h[j] else h[j + 1]);
      Popped(Some(h[i]), rest)
  }

  /**
   * One iteration of the loop in `HighestN::new`: push `x`, and when the
   * queue then holds more than `n` elements pop (and drop) a smallest one.
   */
  function Offer(h: seq<int>, x: int, n: nat): seq<int>
  {
    var pushed := h + [x];
    if |pushed| > n then Next(pushed).rest else pushed
  }

  /** Every element of `kept` is at least every element of `dropped`. */
  predicate Dominates(kept: multiset<int>, dropped: multiset<int>)
  {
    forall a, b :: a in kept && b in dropped ==> b <= a
  }

  /**
   * `kept` is a choice of the `n` largest elements of `xs`, duplicates
   * counted: a sub-multiset of the right size none of whose elements is
   * smaller than an element left out.
   */
  predicate IsTopN(kept: multiset<int>, xs: seq<int>, n: nat)
  {
    && kept <= multiset(xs)
    && |kept| == Min(n, |xs|)
    && Dominates(kept, multiset(xs) - kept)
  }

  /** A sub-multiset of the same size is the whole multiset. */
  lemma SubMultisetOfSameSize(a: multiset<int>, b: multiset<int>)
    requires a <= b && |a| == |b|
    ensures a == b
  {
    var d := b - a;
    assert b == a + d;
    assert |d| == 0;
  }

  /**
   * Pushing `x` and then dropping a smallest element `m` keeps the kept
   * elements on top of the dropped ones.
   */
  lemma PushPopDominates(H: multiset<int>, X: multiset<int>, x: int, m: int)
    requires H <= X && Dominates(H, X - H)
    requires m in H + multiset{x}
    requires forall y :: y in H + multiset{x} ==> m <= y
    ensures Dominates(H + multiset{x} - multiset{m}, X + multiset{x} - (H + multiset{x} - multiset{m}))
  {
    var kept := H + multiset{x} - multiset{m};
    var dropped := X + multiset{x} - kept;
    assert dropped == (X - H) + multiset{m};
    forall a, b | a in kept && b in dropped
      ensures b <= a
    {
      assert a in H + multiset{x};
      if b != m {
        assert b in X - H;
        if a !in H {
          assert a == x;
          assert m in H;
        }
      }
    }
  }

  /** `Offer` keeps the top-N property as the input grows by one element. */
  lemma OfferKeepsTopN(h: seq<int>, xs: seq<int>, x: int, n: nat)
    requires IsTopN(multiset(h), xs, n)
    ensures IsTopN(multiset(Offer(h, x, n)), xs + [x], n)
  {
    assert multiset(xs + [x]) == multiset(xs) + multiset{x};
    if |h + [x]| > n {
      OverflowKeepsTopN(h, xs, x, n);
    } else {
      SubMultisetOfSameSize(multiset(h), multiset(xs));
      assert multiset(xs + [x]) - multiset(h + [x]) == multiset{};
    }
  }

  /** When the push overflows the capacity, popping a smallest element keeps the top-N property. */
  lemma OverflowKeepsTopN(h: seq<int>, xs: seq<int>, x: int, n: nat)
    requires IsTopN(multiset(h), xs, n)
    requires |h + [x]| > n
    ensures IsTopN(multiset(Next(h + [x]).rest), xs + [x], n)
  {
    var H, X := multiset(h), multiset(xs);
    var pushed := h + [x];
    assert multiset(pushed) == H + multiset{x};
    var m := PoppedMin(pushed);
    PushPopTopN(H, X, x, m, n);
    assert multiset(xs + [x]) == X + multiset{x};
  }

  /** The multiset form of `OverflowKeepsTopN`. */
  lemma PushPopTopN(H: multiset<int>, X: multiset<int>, x: int, m: int, n: nat)
    requires H <= X && |H| == Min(n, |X|) && Dominates(H, X - H) && |H| + 1 > n
    requires m in H + multiset{x}
    requires forall y :: y in H + multiset{x} ==> m <= y
    ensures var K := H + multiset{x} - multiset{m};
            K <= X + multiset{x} && |K| == Min(n, |X| + 1) && Dominates(K, X + multiset{x} - K)
  {
    PushPopDominates(H, X, x, m);
  }

  /** The element `Next` pops is a smallest element of the queue, and the rest is the queue without it. */
  lemma PoppedMin(q: seq<int>) returns (m: int)
    requires |q| > 0
    ensures Next(q).item == Some(m)
    ensures m in multiset(q) && multiset(Next(q).rest) == multiset(q) - multiset{m}
    ensures forall y :: y in multiset(q) ==> m <= y
  {
    m := Next(q).item.value;
    assert m in multiset(Next(q).rest) + multiset{m};
    forall y | y in multiset(q)
      ensures m <= y
    {
      var j :| 0 <= j < |q| && q[j] == y;
    }
  }

  /**
   * `HighestN::new::<_, N>(iter)`, which `n_highest::<N>()` calls unchanged:
   * offer every element in order to an empty queue. The queue ends holding
   * exactly the `n` largest elements of the input (all of them when there
   * are fewer than `n`).
   */
  function New(xs: seq<int>, n: nat): (h: seq<int>)
    ensures |h| <= n
    ensures IsTopN(multiset(h), xs, n)
  {
    if |xs| == 0 then []
    else
      var init := xs[..|xs| - 1];
      var h := New(init, n);
      assert xs == init + [xs[|xs| - 1]];
      OfferKeepsTopN(h, init, xs[|xs| - 1], n);
      Offer(h, xs[|xs| - 1], n)
  }

  /** A lower bound of every element is a lower bound of every rearrangement. */
  lemma LowerBoundOfPermutation(v: int, a: seq<int>, b: seq<int>)
    requires multiset(a) == multiset(b)
    requires forall j :: 0 <= j < |a| ==> v <= a[j]
    ensures forall j :: 0 <= j < |b| ==> v <= b[j]
  {
    forall j | 0 <= j < |b|
      ensures v <= b[j]
    {
      assert b[j] in multiset(a);
      var k :| 0 <= k < |a| && a[k] == b[j];
    }
  }

  predicate Sorted(s: seq<int>)
  {
    forall i, j :: 0 <= i < j < |s| ==> s[i] <= s[j]
  }

  /**
   * Exhausting the `HighestN` iterator: call `Next` until it yields `None`.
   * Every held element comes out exactly once, smallest first.
   */
  function Drain(h: seq<int>): (r: seq<int>)
    ensures multiset(r) == multiset(h)
    ensures Sorted(r)
    decreases |h|
  {
    var p := Next(h);
    match p.item
    case None => []
    case Some(v) =>
      assert |p.rest| < |h| by {
        assert |multiset(p.rest)| + 1 == |multiset(h)|;
      }
      var rest := Drain(p.rest);
      LowerBoundOfPermutation(v, p.rest, rest);
      PrependSorted(v, rest);
      [v] + rest
  }

  /** Putting a lower bound in front of a sorted sequence keeps it sorted. */
  lemma PrependSorted(v: int, s: seq<int>)
    requires Sorted(s)
    requires forall j :: 0 <= j < |s| ==> v <= s[j]
    ensures Sorted([v] + s)
  {
  }

  /** Draining the selector yields the `n` largest inputs in ascending order. */
  lemma DrainNew(xs: seq<int>, n: nat)
    ensures var r := Drain(New(xs, n));
            && |r| == Min(n, |xs|)
            && Sorted(r)
            && IsTopN(multiset(r), xs, n)
  {
  }

  /**
   * With a capacity of at least the input length nothing is dropped: the
   * drained sequence is the whole input, sorted.
   */
  lemma NewKeepsEverything(xs: seq<int>, n: nat)
    requires |xs| <= n
    ensures multiset(Drain(New(xs, n))) == multiset(xs)
  {
    SubMultisetOfSameSize(multiset(New(xs, n)), multiset(xs));
  }

  /** With capacity one, the drained sequence is the single largest input. */
  lemma NewOneIsMax(xs: seq<int>)
    requires |xs| > 0
    ensures |Drain(New(xs, 1))| == 1
    ensures Drain(New(xs, 1))[0] in xs
    ensures forall i :: 0 <= i < |xs| ==> xs[i] <= Drain(New(xs, 1))[0]
  {
    var r := Drain(New(xs, 1));
    DrainNew(xs, 1);
    assert r == [r[0]];
    TopOneIsMax(multiset(xs), r[0]);
    forall i | 0 <= i < |xs|
      ensures xs[i] <= r[0]
    {
      assert xs[i] in multiset(xs);
    }
  }

  /** A single element kept on top of all the others is a largest one. */
  lemma TopOneIsMax(X: multiset<int>, v: int)
    requires multiset{v} <= X && Dominates(multiset{v}, X - multiset{v})
    ensures v in X
    ensures forall y :: y in X ==> y <= v
  {
    forall y | y in X
      ensures y <= v
    {
      if y != v {
        assert y in X - multiset{v};
      }
    }
  }
}
