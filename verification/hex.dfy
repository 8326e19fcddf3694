/** Bytes written as lower-case hexadecimal text, as Go's fmt "%x" writes them, and read back. */
module Hex {
  import opened Wrappers

  type Byte = n: nat | n < 256

  predicate IsHexDigit(c: char) { '0' <= c <= '9' || 'a' <= c <= 'f' }

  function HexValue(c: char): nat
    requires IsHexDigit(c)
  {
    if c <= '9' then c as int - '0' as int else c as int - 'a' as int + 10
  }

  /** A lower-case hex digit, as Go's fmt prints it. */
  function HexDigit(n: nat): (c: char)
    requires n < 16
    ensures IsHexDigit(c) && HexValue(c) == n
  {
    if n < 10 then ('0' as int + n) as char else ('a' as int + n - 10) as char
  }

  /** A hex digit is fixed by its value. */
  lemma HexDigitOfValue(c: char, v: nat)
    requires IsHexDigit(c) && HexValue(c) == v && v < 16
    ensures c == HexDigit(v)
  {
  }

  /** The nibble of `b` that hex digit `k` stands for: the high one at even `k`, the low one at odd `k`. */
  function Nibble(b: seq<Byte>, k: nat): nat
    requires k < 2 * |b|
  {
    if k % 2 == 0 then b[k / 2] / 16 else b[k / 2] % 16
  }

  /** Go's fmt "%x" of a byte array: two lower-case hex digits per byte, high nibble first. */
  function HexEncode(b: seq<Byte>): (s: string)
    ensures |s| == 2 * |b|
    ensures forall i :: 0 <= i < |s| ==> IsHexDigit(s[i])
    ensures forall i :: 0 <= i < |b| ==> HexValue(s[2 * i]) * 16 + HexValue(s[2 * i + 1]) == b[i]
  {
    var s := seq(2 * |b|, k requires 0 <= k < 2 * |b| => HexDigit(Nibble(b, k)));
    assert forall i :: 0 <= i < |b| ==> HexValue(s[2 * i]) * 16 + HexValue(s[2 * i + 1]) == b[i] by {
      forall i | 0 <= i < |b|
        ensures HexValue(s[2 * i]) * 16 + HexValue(s[2 * i + 1]) == b[i]
      {
        assert Nibble(b, 2 * i) == b[i] / 16;
        assert Nibble(b, 2 * i + 1) == b[i] % 16;
      }
    }
    s
  }

  /** Pairs of hex digits back into bytes. */
  function HexDecode(s: string): (r: Option<seq<Byte>>)
    ensures r.Some? ==> 2 * |r.value| == |s|
  {
    if |s| % 2 == 0 && forall i :: 0 <= i < |s| ==> IsHexDigit(s[i]) then
      Some(seq(|s| / 2, i requires 0 <= i < |s| / 2 => HexValue(s[2 * i]) * 16 + HexValue(s[2 * i + 1])))
    else None
  }

  lemma HexRoundTrip(b: seq<Byte>)
    ensures HexDecode(HexEncode(b)) == Some(b)
  {
    DecodeDigits(b, HexEncode(b));
  }

  /** Text with two hex digits per byte, whose values are the bytes, decodes to those bytes. */
  lemma DecodeDigits(b: seq<Byte>, s: string)
    requires |s| == 2 * |b|
    requires forall i :: 0 <= i < |s| ==> IsHexDigit(s[i])
    requires forall i :: 0 <= i < |b| ==> HexValue(s[2 * i]) * 16 + HexValue(s[2 * i + 1]) == b[i]
    ensures HexDecode(s) == Some(b)
  {
    assert |s| / 2 == |b|;
    var d := seq(|s| / 2, i requires 0 <= i < |s| / 2 => HexValue(s[2 * i]) * 16 + HexValue(s[2 * i + 1]));
    forall i | 0 <= i < |b|
      ensures d[i] == b[i]
    {
      assert d[i] == HexValue(s[2 * i]) * 16 + HexValue(s[2 * i + 1]);
    }
    assert d == b;
  }
}
