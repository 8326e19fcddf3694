/**
 * Decimal text for integers, as Go's fmt "%d", strconv.Itoa and strconv.Atoi
 * produce and accept it, and Go's 64-bit `int` arithmetic.
 */
module Strconv {
  import opened Wrappers

  const MinInt64: int := -0x8000_0000_0000_0000
  const MaxInt64: int := 0x7fff_ffff_ffff_ffff
  const Two64: int := 0x1_0000_0000_0000_0000

  predicate InInt64(x: int) { MinInt64 <= x <= MaxInt64 }

  predicate IsDigit(c: char) { '0' <= c <= '9' }

  predicate AllDigits(s: string) { forall i :: 0 <= i < |s| ==> IsDigit(s[i]) }

  function DigitChar(d: nat): (c: char)
    requires d < 10
    ensures IsDigit(c) && c as int - '0' as int == d
  {
    ('0' as int + d) as char
  }

  /** The value of a string of decimal digits, most significant digit first. */
  function DigitsValue(s: string): nat
    requires AllDigits(s)
  {
    if s == [] then 0 else DigitsValue(s[..|s| - 1]) * 10 + (s[|s| - 1] as int - '0' as int)
  }

  /** Shortest decimal text of `n`: no sign and no leading zero. */
  function NatToDecimal(n: nat): (s: string)
    ensures |s| >= 1 && AllDigits(s)
    ensures s[0] == '0' ==> n == 0
  {
    if n < 10 then [DigitChar(n)] else NatToDecimal(n / 10) + [DigitChar(n % 10)]
  }

  lemma {:induction false} DecimalRoundTrip(n: nat)
    ensures DigitsValue(NatToDecimal(n)) == n
  {
    if n >= 10 {
      var s := NatToDecimal(n);
      assert s[..|s| - 1] == NatToDecimal(n / 10);
      DecimalRoundTrip(n / 10);
    }
  }

  /** strconv.Itoa: decimal text with a leading '-' for negative values. */
  function Itoa(n: int): (s: string)
    ensures |s| >= 1
    ensures n < 0 <==> s[0] == '-'
  {
    if n < 0 then "-" + NatToDecimal(-n) else NatToDecimal(n)
  }

  /**
   * strconv.Atoi: an optional '+' or '-' sign, then one or more ASCII digits
   * (leading zeros allowed), whose value must fit Go's 64-bit `int`.
   */
  function Atoi(s: string): (r: Option<int>)
    ensures r.Some? ==> InInt64(r.value) && |s| >= 1
    ensures r.Some? ==>
      || AllDigits(s)
      || (|s| >= 2 && (s[0] == '+' || s[0] == '-') && AllDigits(s[1..]))
    ensures r.Some? && r.value < 0 ==> s[0] == '-'
  {
    if |s| >= 1 && (s[0] == '+' || s[0] == '-') then
      var digits := s[1..];
      if digits != [] && AllDigits(digits) then
        var v: int := if s[0] == '-' then -(DigitsValue(digits) as int) else DigitsValue(digits);
        if InInt64(v) then Some(v) else None
      else None
    else if s != [] && AllDigits(s) && InInt64(DigitsValue(s)) then Some(DigitsValue(s))
    else None
  }

  /** Every 64-bit integer survives being written by Itoa and read back by Atoi. */
  lemma ItoaRoundTrip(n: int)
    requires InInt64(n)
    ensures Atoi(Itoa(n)) == Some(n)
  {
    var s := Itoa(n);
    if n < 0 {
      var digits := NatToDecimal(-n);
      assert s[0] == '-' && s[1..] == digits;
      DecimalRoundTrip(-n);
      assert DigitsValue(digits) == -n;
    } else {
      DecimalRoundTrip(n);
      assert s == NatToDecimal(n) && AllDigits(s);
      assert s[0] != '+' && s[0] != '-';
    }
  }

  /** Atoi also takes an explicit '+' sign in front of the digits. */
  lemma AtoiPlus(n: nat)
    requires n <= MaxInt64
    ensures Atoi("+" + NatToDecimal(n)) == Some(n)
  {
    var s := "+" + NatToDecimal(n);
    assert s[1..] == NatToDecimal(n);
    DecimalRoundTrip(n);
  }

  /** The 64-bit two's-complement value of `x`: Go's `int` arithmetic wraps around. */
  function Wrap64(x: int): (r: int)
    ensures InInt64(r)
    ensures (r - x) % Two64 == 0
  {
    MinInt64 + (x - MinInt64) % Two64
  }

  lemma Int64Congruent(a: int, b: int)
    requires InInt64(a) && InInt64(b) && (a - b) % Two64 == 0
    ensures a == b
  {
  }

  /** Wrapping after each step gives the same value as wrapping once at the end. */
  lemma Wrap64Add(x: int, n: int)
    ensures Wrap64(Wrap64(x) + n) == Wrap64(x + n)
  {
    var a, b := Wrap64(Wrap64(x) + n), Wrap64(x + n);
    var k1, k2 := (a - (Wrap64(x) + n)) / Two64, (b - (x + n)) / Two64;
    var k3 := (Wrap64(x) - x) / Two64;
    assert a - b == (k1 + k3 - k2) * Two64;
    Int64Congruent(a, b);
  }

  /** Go's `s + 1` on a 64-bit int: the largest value wraps to the smallest. */
  function Int64Succ(s: int): (r: int)
    requires InInt64(s)
    ensures InInt64(r)
  {
    if s == MaxInt64 then MinInt64 else s + 1
  }

  /** Int64Succ is adding one modulo 2^64. */
  lemma Int64SuccWraps(s: int)
    requires InInt64(s)
    ensures Int64Succ(s) == Wrap64(s + 1)
  {
    var r := Int64Succ(s);
    assert (r - (s + 1)) % Two64 == 0;
    Int64Congruent(Wrap64(s + 1), r);
  }

  /** `s` advanced by Int64Succ `n` times. */
  function AdvanceBy(s: int, n: nat): (r: int)
    decreases n
    requires InInt64(s)
    ensures InInt64(r)
  {
    if n == 0 then s else AdvanceBy(Int64Succ(s), n - 1)
  }

  /** Advancing `n` times is adding `n` once, modulo 2^64. */
  lemma {:induction false} AdvanceByWraps(s: int, n: nat)
    decreases n
    requires InInt64(s)
    ensures AdvanceBy(s, n) == Wrap64(s + n)
    ensures s + n <= MaxInt64 ==> AdvanceBy(s, n) == s + n
  {
    if n == 0 {
      Int64Congruent(Wrap64(s), s);
    } else {
      AdvanceByWraps(Int64Succ(s), n - 1);
      Int64SuccWraps(s);
      Wrap64Add(s + 1, n - 1);
      assert s + 1 + (n - 1) == s + n;
      if s + n <= MaxInt64 {
        Int64Congruent(Wrap64(s + n), s + n);
      }
    }
  }
}
