/**
 * Reverse-lookup names of IP addresses: `d.c.b.a.in-addr.arpa.` for IPv4
 * (section 3.5 of RFC 1035) and 32 reversed hex nibbles under `ip6.arpa.`
 * for IPv6 (section 2.5 of RFC 3596), and the reading of such names back
 * into address bytes.
 */
module ReverseLookup {
  import opened Wrappers
  import opened Strconv
  import opened Labels
  import opened Hex

  type Bytes4 = s: seq<Byte> | |s| == 4 witness [0, 0, 0, 0]
  type Bytes16 = s: seq<Byte> | |s| == 16 witness [0, 0, 0, 0, 0, 0, 0, 0, 0, 0, 0, 0, 0, 0, 0, 0]

  /** A parsed IP address in its canonical form: 4 bytes for IPv4, 16 for IPv6. */
  datatype Address = V4(v4: Bytes4) | V6(v6: Bytes16)

  function Reverse<T>(s: seq<T>): (r: seq<T>)
  {
    seq(|s|, k requires 0 <= k < |s| => s[|s| - 1 - k])
  }

  lemma ArpaLabels()
    ensures SplitDots("arpa.") == ["arpa", ""]
  {
    assert IndexOfDot("") == 0;
    assert "arpa." == "arpa" + "." + "";
    SplitAfter("arpa", "");
  }

  /** The text after the IPv4 address labels, split at its dots. */
  lemma InAddrArpaLabels()
    ensures SplitDots("in-addr.arpa.") == ["in-addr", "arpa", ""]
  {
    ArpaLabels();
    assert "in-addr.arpa." == "in-addr" + "." + "arpa.";
    SplitAfter("in-addr", "arpa.");
  }

  /** The text after the IPv6 address labels, split at its dots. */
  lemma Ip6ArpaLabels()
    ensures SplitDots("ip6.arpa.") == ["ip6", "arpa", ""]
  {
    ArpaLabels();
    assert "ip6.arpa." == "ip6" + "." + "arpa.";
    SplitAfter("ip6", "arpa.");
  }

  // ---------------------------------------------------------------- IPv4

  /** The four bytes in decimal, last byte first, then `in-addr.arpa.`. */
  function ReverseNameV4(b: Bytes4): string
  {
    NatToDecimal(b[3]) + "." + NatToDecimal(b[2]) + "." + NatToDecimal(b[1]) + "."
      + NatToDecimal(b[0]) + ".in-addr.arpa."
  }

  function V4Labels(b: Bytes4): seq<string>
  {
    [NatToDecimal(b[3]), NatToDecimal(b[2]), NatToDecimal(b[1]), NatToDecimal(b[0])]
  }

  lemma DecimalHasNoDot(n: nat)
    ensures '.' !in NatToDecimal(n)
  {
    var s := NatToDecimal(n);
    assert forall i :: 0 <= i < |s| ==> s[i] != '.';
  }

  /** Four labels written as the IPv4 reverse name writes them are the dotted labels followed by `in-addr.arpa.`. */
  lemma DottedFour(d3: string, d2: string, d1: string, d0: string)
    ensures d3 + "." + d2 + "." + d1 + "." + d0 + ".in-addr.arpa." == Dotted([d3, d2, d1, d0]) + "in-addr.arpa."
  {
    assert Dotted([d0]) == d0 + "." by {
      assert [d0][1..] == [];
    }
    assert Dotted([d1, d0]) == d1 + "." + Dotted([d0]) by {
      assert [d1, d0][1..] == [d0];
    }
    assert Dotted([d2, d1, d0]) == d2 + "." + Dotted([d1, d0]) by {
      assert [d2, d1, d0][1..] == [d1, d0];
    }
    assert Dotted([d3, d2, d1, d0]) == d3 + "." + Dotted([d2, d1, d0]) by {
      assert [d3, d2, d1, d0][1..] == [d2, d1, d0];
    }
  }

  /** Seven labels: the bytes in decimal in reverse order, "in-addr", "arpa" and the empty root. */
  lemma ReverseNameV4Labels(b: Bytes4)
    ensures SplitDots(ReverseNameV4(b)) == V4Labels(b) + ["in-addr", "arpa", ""]
  {
    var ls := V4Labels(b);
    DottedFour(ls[0], ls[1], ls[2], ls[3]);
    DecimalHasNoDot(b[0]);
    DecimalHasNoDot(b[1]);
    DecimalHasNoDot(b[2]);
    DecimalHasNoDot(b[3]);
    assert NoDots(ls);
    SplitDotted(ls, "in-addr.arpa.");
    InAddrArpaLabels();
  }

  /** A decimal label with a value below 256. */
  function ParseDecimalByte(text: string): Option<Byte>
  {
    if text != [] && AllDigits(text) && DigitsValue(text) < 256 then Some(DigitsValue(text)) else None
  }

  lemma ParseDecimalByteRoundTrip(n: Byte)
    ensures ParseDecimalByte(NatToDecimal(n)) == Some(n)
  {
    DecimalRoundTrip(n);
  }

  /** Reads an `in-addr.arpa.` name back into the address, undoing the byte reversal. */
  function ParseReverseV4(name: string): Option<Bytes4>
  {
    var ls := SplitDots(name);
    if |ls| == 7 && ls[4..] == ["in-addr", "arpa", ""] then
      match (ParseDecimalByte(ls[3]), ParseDecimalByte(ls[2]), ParseDecimalByte(ls[1]), ParseDecimalByte(ls[0]))
      case (Some(b0), Some(b1), Some(b2), Some(b3)) => Some([b0, b1, b2, b3])
      case _ => None
    else None
  }

  /** Reversing the labels of the IPv4 reverse name gives back the address. */
  lemma ReverseNameV4RoundTrip(b: Bytes4)
    ensures ParseReverseV4(ReverseNameV4(b)) == Some(b)
  {
    ReverseNameV4Labels(b);
    var ls := SplitDots(ReverseNameV4(b));
    assert ls[4..] == ["in-addr", "arpa", ""];
    ParseDecimalByteRoundTrip(b[0]);
    ParseDecimalByteRoundTrip(b[1]);
    ParseDecimalByteRoundTrip(b[2]);
    ParseDecimalByteRoundTrip(b[3]);
    assert ParseDecimalByte(ls[3]) == Some(b[0]);
    assert ParseDecimalByte(ls[0]) == Some(b[3]);
    assert [b[0], b[1], b[2], b[3]] == b;
  }

  // ---------------------------------------------------------------- IPv6

  /** One single-character label per hex digit, in order. */
  function NibbleLabels(hex: string): seq<string>
  {
    seq(|hex|, k requires 0 <= k < |hex| => [hex[k]])
  }

  /** The labels of a suffix of `hex`, reversed: the last digit of `hex` comes first. */
  lemma ReversedSuffix(hex: string, j: nat)
    requires j <= |hex|
    ensures var r := Reverse(NibbleLabels(hex[j..]));
      |r| == |hex| - j && forall k :: 0 <= k < |hex| - j ==> r[k] == [hex[|hex| - 1 - k]]
  {
  }

  /** The hex digits of the address, last one first, each followed by a dot, then `ip6.arpa.`. */
  function ReverseNameV6(b: Bytes16): string
  {
    Dotted(Reverse(NibbleLabels(HexEncode(b)))) + "ip6.arpa."
  }

  /**
   * The down-counting loop that writes the hex digits of `hex` in reverse
   * order, each followed by a dot.
   */
  method ReverseNibbles(hex: string) returns (rHex: string)
    ensures rHex == Dotted(Reverse(NibbleLabels(hex)))
  {
    rHex := "";
    var i := |hex|;
    while i > 0
      invariant 0 <= i <= |hex|
      invariant rHex == Dotted(Reverse(NibbleLabels(hex[i..])))
    {
      ghost var done := Reverse(NibbleLabels(hex[i..]));
      ReversedSuffix(hex, i);
      ReversedSuffix(hex, i - 1);
      ghost var next := Reverse(NibbleLabels(hex[i - 1..]));
      assert forall k :: 0 <= k < |done| ==> next[k] == done[k];
      assert next[|done|] == hex[i - 1..i];
      assert next == done + [hex[i - 1..i]];
      DottedAppend(done, hex[i - 1..i]);
      rHex := rHex + hex[i - 1..i] + ".";
      i := i - 1;
    }
    assert hex[0..] == hex;
  }

  lemma HexLabelsHaveNoDots(rs: seq<string>)
    requires forall k :: 0 <= k < |rs| ==> |rs[k]| == 1 && IsHexDigit(rs[k][0])
    ensures NoDots(rs)
  {
    forall k | 0 <= k < |rs|
      ensures '.' !in rs[k]
    {
      assert rs[k] == [rs[k][0]];
    }
  }

  lemma ReverseNameV6Split(b: Bytes16)
    ensures SplitDots(ReverseNameV6(b)) == Reverse(NibbleLabels(HexEncode(b))) + ["ip6", "arpa", ""]
  {
    var hex := HexEncode(b);
    var rs := Reverse(NibbleLabels(hex));
    ReversedSuffix(hex, 0);
    assert hex[0..] == hex;
    HexLabelsHaveNoDots(rs);
    SplitDotted(rs, "ip6.arpa.");
    Ip6ArpaLabels();
  }

  /**
   * Thirty-five labels: 32 single hex digits, "ip6", "arpa" and the empty
   * root; the digit labels read backwards are the hex text of the address.
   */
  lemma ReverseNameV6Labels(b: Bytes16)
    ensures var ls := SplitDots(ReverseNameV6(b));
      && |ls| == 35
      && ls[32..] == ["ip6", "arpa", ""]
      && (forall k :: 0 <= k < 32 ==> |ls[k]| == 1 && IsHexDigit(ls[k][0]))
      && seq(32, k requires 0 <= k < 32 => ls[31 - k][0]) == HexEncode(b)
  {
    var hex := HexEncode(b);
    var rs := Reverse(NibbleLabels(hex));
    ReverseNameV6Split(b);
    ReversedSuffix(hex, 0);
    assert hex[0..] == hex;
    var ls := SplitDots(ReverseNameV6(b));
    var back := seq(32, k requires 0 <= k < 32 => ls[31 - k][0]);
    forall k | 0 <= k < 32
      ensures back[k] == hex[k]
    {
      assert ls[31 - k] == rs[31 - k] == [hex[k]];
    }
    assert back == hex;
  }

  /** Reads an `ip6.arpa.` name back into the address, undoing the nibble reversal. */
  function ParseReverseV6(name: string): Option<Bytes16>
  {
    var ls := SplitDots(name);
    if |ls| == 35 && ls[32..] == ["ip6", "arpa", ""] && forall k :: 0 <= k < 32 ==> |ls[k]| == 1 then
      match HexDecode(seq(32, k requires 0 <= k < 32 => ls[31 - k][0]))
      case Some(bytes) => Some(bytes)
      case None => None
    else None
  }

  /** Reversing the nibble labels of the IPv6 reverse name gives back the address. */
  lemma ReverseNameV6RoundTrip(b: Bytes16)
    ensures ParseReverseV6(ReverseNameV6(b)) == Some(b)
  {
    ReverseNameV6Labels(b);
    HexRoundTrip(b);
  }

  // ---------------------------------------------------------------- both

  function ReverseName(a: Address): string
  {
    match a
    case V4(b) => ReverseNameV4(b)
    case V6(b) => ReverseNameV6(b)
  }

  /** An address back from its reverse name; the suffix tells the family. */
  function ParseReverseName(name: string): Option<Address>
  {
    match ParseReverseV4(name)
    case Some(b) => Some(V4(b))
    case None =>
      match ParseReverseV6(name)
      case Some(b) => Some(V6(b))
      case None => None
  }

  /** Distinct addresses get distinct reverse names, and each name gives its address back. */
  lemma ReverseNameRoundTrip(a: Address)
    ensures ParseReverseName(ReverseName(a)) == Some(a)
  {
    match a
    case V4(b) =>
      ReverseNameV4RoundTrip(b);
    case V6(b) =>
      ReverseNameV6Labels(b);
      ReverseNameV6RoundTrip(b);
  }
}
