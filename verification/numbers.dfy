/**
 * Text as the puzzles read it: Rust's `str::parse` for the unsigned and
 * signed integer types, a canonical decimal rendering used to state round
 * trips, and `str::split_once`.
 */
module Numbers {
  import opened Common

  const U32_MAX: nat := 0xFFFF_FFFF
  /** `usize` on the 64-bit targets the puzzles are run on. */
  const USIZE_MAX: nat := 0xFFFF_FFFF_FFFF_FFFF
  const I64_MIN: int := -0x8000_0000_0000_0000
  const I64_MAX: int := 0x7FFF_FFFF_FFFF_FFFF

  predicate IsDigit(c: char)
  {
    '0' <= c <= '9'
  }

  predicate AllDigits(s: string)
  {
    forall i :: 0 <= i < |s| ==> IsDigit(s[i])
  }

  function DigitValue(c: char): (d: nat)
    requires IsDigit(c)
    ensures d < 10
  {
    c as int - '0' as int
  }

  function DigitChar(d: nat): (c: char)
    requires d < 10
    ensures IsDigit(c) && DigitValue(c) == d
  {
    ('0' as int + d) as char
  }

  /** The value of a string of decimal digits, most significant digit first. */
  function DigitsValue(s: string): nat
    requires AllDigits(s)
  {
    if |s| == 0 then 0 else DigitsValue(s[..|s| - 1]) * 10 + DigitValue(s[|s| - 1])
  }

  /**
   * `<uN as FromStr>::from_str` with `max` the largest value of the type: an
   * optional leading `+`, then at least one decimal digit, and a value that
   * fits. Anything else (the empty string, a lone `+`, a `-`, a stray
   * character, an overflow) is an error.
   */
  function ParseUnsigned(s: string, max: nat): (r: Option<nat>)
    ensures r.Some? ==> r.value <= max
    ensures r.Some? ==> |s| > 0 && (IsDigit(s[0]) || s[0] == '+')
  {
    var digits := if |s| > 0 && s[0] == '+' then s[1..] else s;
    if |digits| == 0 || !AllDigits(digits) then None
    else if DigitsValue(digits) > max then None
    else Some(DigitsValue(digits))
  }

  /**
   * `<iN as FromStr>::from_str` for the range `min..=max`: as for the unsigned
   * types, but a leading `-` makes the value negative.
   */
  function ParseSigned(s: string, min: int, max: nat): (r: Option<int>)
    requires min <= 0
    ensures r.Some? ==> min <= r.value <= max
  {
    if |s| > 0 && s[0] == '-' then
      var digits := s[1..];
      if |digits| == 0 || !AllDigits(digits) then None
      else
        var v: int := DigitsValue(digits);
        if -v < min then None else Some(-v)
    else
      match ParseUnsigned(s, max)
      case None => None
      case Some(v) => Some(v)
  }

  /** The canonical decimal rendering of a natural number (no sign, no leading zeros). */
  function ShowNat(n: nat): (s: string)
    ensures |s| > 0 && AllDigits(s)
  {
    if n < 10 then [DigitChar(n)] else ShowNat(n / 10) + [DigitChar(n % 10)]
  }

  /** The canonical decimal rendering of an integer, with `-` for negatives. */
  function ShowInt(n: int): string
  {
    if n < 0 then "-" + ShowNat(-n) else ShowNat(n)
  }

  /** Reading back a rendered number gives the number. */
  lemma {:induction false} DigitsOfShow(n: nat)
    ensures DigitsValue(ShowNat(n)) == n
  {
    if n >= 10 {
      var s := ShowNat(n);
      assert s[..|s| - 1] == ShowNat(n / 10);
      DigitsOfShow(n / 10);
    }
  }

  /** Parsing the rendering of any value of the type gives that value back. */
  lemma ParseShowUnsigned(n: nat, max: nat)
    requires n <= max
    ensures ParseUnsigned(ShowNat(n), max) == Some(n)
  {
    DigitsOfShow(n);
  }

  /** Parsing the rendering of any in-range signed value gives that value back. */
  lemma ParseShowSigned(n: int, min: int, max: nat)
    requires min <= 0 && min <= n <= max
    ensures ParseSigned(ShowInt(n), min, max) == Some(n)
  {
    if n < 0 {
      var s := ShowInt(n);
      assert s[0] == '-' && s[1..] == ShowNat(-n);
      DigitsOfShow(-n);
    } else {
      ParseShowUnsigned(n, max);
      assert ShowNat(n)[0] != '-';
    }
  }

  /** A value that does not fit the type is rejected. */
  lemma ParseRejectsOverflow(n: nat, max: nat)
    requires n > max
    ensures ParseUnsigned(ShowNat(n), max) == None
  {
    DigitsOfShow(n);
  }

  /** `str::split_once`: the parts before and after the first `sep`. */
  function SplitOnce(s: string, sep: char): (r: Option<(string, string)>)
    ensures r.None? <==> sep !in s
    ensures r.Some? ==> r.value.0 + [sep] + r.value.1 == s && sep !in r.value.0
  {
    if |s| == 0 then None
    else if s[0] == sep then Some(([], s[1..]))
    else
      match SplitOnce(s[1..], sep)
      case None => None
      case Some((l, r)) =>
        assert [s[0]] + l + [sep] + r == s;
        Some(([s[0]] + l, r))
  }

  /** `SplitOnce` splits at a separator the left part does not contain. */
  lemma {:induction false} SplitOnceAt(l: string, sep: char, r: string)
    requires sep !in l
    ensures SplitOnce(l + [sep] + r, sep) == Some((l, r))
  {
    var s := l + [sep] + r;
    if |l| > 0 {
      assert s[1..] == l[1..] + [sep] + r;
      SplitOnceAt(l[1..], sep, r);
      assert [s[0]] + l[1..] == l;
    }
  }
}
