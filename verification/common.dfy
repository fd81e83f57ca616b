/** Small shared vocabulary: an optional value, mapping and summing sequences. */
module Common {

  /** The optional value `Option<T>` of the Rust code. */
  datatype Option<+T> = None | Some(value: T)

  /** Sum of a sequence of integers, folding from the front. */
  function Sum(s: seq<int>): int
  {
    if |s| == 0 then 0 else s[0] + Sum(s[1..])
  }

  /** Sum is additive over concatenation. */
  lemma {:induction false} SumAppend(a: seq<int>, b: seq<int>)
    ensures Sum(a + b) == Sum(a) + Sum(b)
  {
    if |a| == 0 {
      assert a + b == b;
    } else {
      assert (a + b)[1..] == a[1..] + b;
      SumAppend(a[1..], b);
    }
  }

  /** The sum of natural numbers is a natural number. */
  lemma {:induction false} SumNonNegative(s: seq<int>)
    requires forall i :: 0 <= i < |s| ==> s[i] >= 0
    ensures Sum(s) >= 0
  {
    if |s| > 0 {
      SumNonNegative(s[1..]);
    }
  }

  /** `f` applied to every element, in order. */
  function Map<A, B>(f: A --> B, s: seq<A>): (r: seq<B>)
    requires forall i :: 0 <= i < |s| ==> f.requires(s[i])
    ensures |r| == |s|
    ensures forall i :: 0 <= i < |s| ==> r[i] == f(s[i])
  {
    if |s| == 0 then [] else [f(s[0])] + Map(f, s[1..])
  }

  /** Concatenation of a sequence of sequences. */
  function Flatten<T>(groups: seq<seq<T>>): seq<T>
  {
    if |groups| == 0 then [] else groups[0] + Flatten(groups[1..])
  }

  /** Maximum of two integers. */
  function Max(a: int, b: int): int
  {
    if a < b then b else a
  }

  /** Minimum of two integers. */
  function Min(a: int, b: int): int
  {
    if a < b then a else b
  }

  /** No element occurs twice. */
  predicate Distinct<T(==)>(s: seq<T>)
  {
    forall i, j :: 0 <= i < j < |s| ==> s[i] != s[j]
  }

  /** The set of elements of a sequence. */
  function Elements<T>(s: seq<T>): set<T>
  {
    set i | 0 <= i < |s| :: s[i]
  }

  /** A sequence has at least as many positions as it has distinct elements. */
  lemma {:induction false} ElementsBound<T>(s: seq<T>)
    ensures |Elements(s)| <= |s|
  {
    if |s| > 0 {
      ElementsBound(s[..|s| - 1]);
      assert Elements(s) == Elements(s[..|s| - 1]) + {s[|s| - 1]};
    }
  }

  /** A non-empty sequence has at least one distinct element. */
  lemma ElementsNonEmpty<T>(s: seq<T>)
    requires |s| > 0
    ensures |Elements(s)| >= 1
  {
    assert s[0] in Elements(s);
  }

  /** `p` is `d * q + r` with `0 <= r < d` exactly when `r` and `q` are the remainder and quotient. */
  lemma ModUnique(p: int, d: int, q: int, r: int)
    requires d > 0 && 0 <= r < d && p == d * q + r
    ensures p % d == r && p / d == q
  {
    var q0, r0 := p / d, p % d;
    assert d * q + r == d * q0 + r0;
    if q > q0 {
      MulAtLeast(d, q - q0);
      assert false;
    } else if q < q0 {
      MulAtLeast(d, q0 - q);
      assert false;
    }
  }

  lemma MulAtLeast(d: nat, k: nat)
    requires k >= 1
    ensures d * k >= d
  {
    assert d * k == d * (k - 1) + d;
  }
}
