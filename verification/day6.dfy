/**
 * Day 6, tuning trouble: the answer is the position just after the first
 * window of 4 (part one) or 14 (part two) pairwise different bytes.
 */
module TuningTrouble {
  import Common

  /** An input byte (`u8`). */
  type Byte = bv8

  const LOWER_A: bv8 := 97

  /**
   * A byte `all_unique` can take without panicking: `byte - b'a'` must not
   * underflow and `1 << offset` must stay below the 32 bits of the set.
   */
  predicate InRange(b: Byte)
  {
    LOWER_A <= b < LOWER_A + 32
  }

  /** Whether the `u32` set holds offset `k`. */
  predicate Has(bits: bv32, k: bv32)
    requires k < 32
  {
    bits & (1 << k) != 0
  }

  /** Setting bit `k` sets exactly that bit. */
  lemma SetBit(bits: bv32, k: bv32, j: bv32)
    requires k < 32 && j < 32
    ensures (bits | (1 << k)) & (1 << j) != 0 <==> bits & (1 << j) != 0 || j == k
  {
  }

  /** `set |= 1 << k`. */
  function Insert(bits: bv32, k: bv32): bv32
    requires k < 32
  {
    bits | (1 << k)
  }

  /** Adding `k` to the set adds exactly `k`. */
  lemma HasInsert(bits: bv32, k: bv32, j: bv32)
    requires k < 32 && j < 32
    ensures Has(Insert(bits, k), j) <==> Has(bits, j) || j == k
  {
    SetBit(bits, k, j);
  }

  /** `(byte - b'a') as usize`, the bit a byte stands for. */
  function Offset(b: Byte): (k: bv32)
    requires InRange(b)
    ensures k < 32 && (k as bv8) + LOWER_A == b
  {
    (b - LOWER_A) as bv32
  }

  lemma HasNothing(k: bv32)
    requires k < 32
    ensures !Has(0, k)
  {
  }

  /** Whether a byte standing for `offset` occurs among the first `i` of `w`. */
  predicate Seen(w: seq<Byte>, i: nat, offset: bv32)
    requires i <= |w| && offset < 32
  {
    exists j :: 0 <= j < i && w[j] == (offset as bv8) + LOWER_A
  }

  /**
   * `all_unique`: walk the bytes, keeping the set of offsets seen, and stop
   * with `false` at the first one already in the set.
   */
  method AllUnique(w: seq<Byte>) returns (unique: bool)
    requires forall i :: 0 <= i < |w| ==> InRange(w[i])
    ensures unique <==> Common.Distinct(w)
  {
    var bits: bv32 := 0;
    var i := 0;
    forall k: bv32 | k < 32 ensures Has(bits, k) <==> Seen(w, 0, k) { HasNothing(k); }
    while i < |w|
      invariant i <= |w|
      invariant Common.Distinct(w[..i])
      invariant forall k: bv32 | k < 32 :: Has(bits, k) <==> Seen(w, i, k)
    {
      var offset := Offset(w[i]);
      if Has(bits, offset) {
        assert Seen(w, i, offset);
        var j :| 0 <= j < i && w[j] == (offset as bv8) + LOWER_A;
        assert w[..i + 1][j] == w[..i + 1][i];
        return false;
      }
      SeenStep(w, i, bits, offset);
      assert w[..i + 1] == w[..i] + [w[i]];
      bits := Insert(bits, offset);
      i := i + 1;
    }
    assert w[..i] == w;
    return true;
  }

  /** Inserting the next byte's bit keeps the set equal to the bytes seen. */
  lemma SeenStep(w: seq<Byte>, i: nat, bits: bv32, offset: bv32)
    requires i < |w| && offset < 32 && w[i] == (offset as bv8) + LOWER_A
    requires forall k: bv32 | k < 32 :: Has(bits, k) <==> Seen(w, i, k)
    requires !Has(bits, offset)
    ensures forall j :: 0 <= j < i ==> w[j] != w[i]
    ensures forall k: bv32 | k < 32 :: Has(Insert(bits, offset), k) <==> Seen(w, i + 1, k)
  {
    assert !Seen(w, i, offset);
    var next := i + 1;
    forall k: bv32 | k < 32
      ensures Has(Insert(bits, offset), k) <==> Seen(w, next, k)
    {
      HasInsert(bits, offset, k);
      assert Has(bits, k) <==> Seen(w, i, k);
      if k == offset {
        assert w[i] == (k as bv8) + LOWER_A;
      } else if Seen(w, next, k) {
        var j :| 0 <= j < next && w[j] == (k as bv8) + LOWER_A;
        assert j != i;
      }
    }
  }

  /** The window of `n` bytes ending just before position `p`. */
  function Window(input: seq<Byte>, p: nat, n: nat): seq<Byte>
    requires n <= p <= |input|
  {
    input[p - n..p]
  }

  /** `p` ends a window of `n` different bytes. */
  predicate IsMarker(input: seq<Byte>, p: nat, n: nat)
  {
    n <= p <= |input| && Common.Distinct(Window(input, p, n))
  }

  /**
   * The searches the source performs without panicking: some window is a
   * marker (else the final `unwrap` fails) and every byte before the end of
   * that window is one `all_unique` accepts.
   */
  predicate HasMarker(input: seq<Byte>, n: nat)
  {
    exists p :: n <= p <= |input| && IsMarker(input, p, n) && forall j :: 0 <= j < p ==> InRange(input[j])
  }

  /**
   * `windows(n).enumerate().find_map(..).unwrap()`: the end of the first
   * window of `n` different bytes. `windows(0)` panics, hence `n > 0`.
   */
  method FirstMarker(input: seq<Byte>, n: nat) returns (p: nat)
    requires n > 0 && HasMarker(input, n)
    ensures IsMarker(input, p, n)
    ensures forall q :: n <= q < p ==> !IsMarker(input, q, n)
  {
    ghost var m :| n <= m <= |input| && IsMarker(input, m, n) && forall j :: 0 <= j < m ==> InRange(input[j]);
    p := n;
    while true
      invariant n <= p <= m
      invariant forall q :: n <= q < p ==> !IsMarker(input, q, n)
      decreases m - p
    {
      var w := Window(input, p, n);
      assert forall j :: 0 <= j < |w| ==> w[j] == input[p - n + j];
      var unique := AllUnique(w);
      if unique {
        return;
      }
      p := p + 1;
    }
  }

  /** `part1`: the end of the first start-of-packet marker, four different bytes. */
  method Part1(input: seq<Byte>) returns (p: nat)
    requires HasMarker(input, 4)
    ensures IsMarker(input, p, 4)
    ensures forall q :: 4 <= q < p ==> !IsMarker(input, q, 4)
  {
    p := FirstMarker(input, 4);
  }

  /** `part2`: the end of the first start-of-message marker, fourteen different bytes. */
  method Part2(input: seq<Byte>) returns (p: nat)
    requires HasMarker(input, 14)
    ensures IsMarker(input, p, 14)
    ensures forall q :: 14 <= q < p ==> !IsMarker(input, q, 14)
  {
    p := FirstMarker(input, 14);
  }

  /** The last `k` bytes of a marker window are themselves a (shorter) marker. */
  lemma ShorterMarker(input: seq<Byte>, p: nat, n: nat, k: nat)
    requires IsMarker(input, p, n) && k <= n
    ensures IsMarker(input, p, k)
  {
    var w, v := Window(input, p, n), Window(input, p, k);
    assert forall i :: 0 <= i < |v| ==> v[i] == w[n - k + i];
  }

  /** The first message marker never ends before the first packet marker. */
  lemma PacketMarkerFirst(input: seq<Byte>, p1: nat, p2: nat)
    requires IsMarker(input, p1, 4) && forall q :: 4 <= q < p1 ==> !IsMarker(input, q, 4)
    requires IsMarker(input, p2, 14)
    ensures p1 <= p2
  {
    ShorterMarker(input, p2, 14, 4);
  }
}
