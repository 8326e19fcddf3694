/** Concrete cases of the reverse names and of the serial bump. */
module Scenarios {
  import opened Strconv
  import opened Labels
  import opened Hex
  import opened ReverseLookup

  /** 192.0.2.10 has the reverse name 10.2.0.192.in-addr.arpa. */
  lemma ReverseNameOf192_0_2_10()
    ensures ReverseNameV4([192, 0, 2, 10]) == "10.2.0.192.in-addr.arpa."
  {
    assert NatToDecimal(192) == "192";
    assert NatToDecimal(10) == "10";
    Spelled_10_2_0_192();
  }

  /** The pieces of that name, joined. */
  lemma Spelled_10_2_0_192()
    ensures "10" + "." + "2" + "." + "0" + "." + "192" + ".in-addr.arpa." == "10.2.0.192.in-addr.arpa."
  {
  }

  /**
   * An address ending in bytes 00 01, such as 2001:db8::1, has a reverse
   * name that starts with the last nibbles: 1.0.0.0.
   */
  lemma ReverseNameEndingIn0001(b: Bytes16)
    requires b[14] == 0 && b[15] == 1
    ensures var ls := SplitDots(ReverseNameV6(b));
      |ls| >= 4 && ls[..4] == ["1", "0", "0", "0"]
  {
    var ls := SplitDots(ReverseNameV6(b));
    ReverseNameV6Labels(b);
    var hex := HexEncode(b);
    assert forall k :: 0 <= k < 32 ==> ls[k] == [hex[31 - k]] by {
      forall k | 0 <= k < 32 ensures ls[k] == [hex[31 - k]] {
        assert seq(32, j requires 0 <= j < 32 => ls[31 - j][0])[31 - k] == hex[31 - k];
      }
    }
    assert HexValue(hex[30]) * 16 + HexValue(hex[31]) == 1;
    assert HexValue(hex[28]) * 16 + HexValue(hex[29]) == 0;
    HexDigitOfValue(hex[31], 1);
    HexDigitOfValue(hex[30], 0);
    HexDigitOfValue(hex[29], 0);
    HexDigitOfValue(hex[28], 0);
  }

  /** The serial 2024010100, read, advanced and written back, becomes 2024010101. */
  lemma SerialBumpOf2024010100()
    ensures Itoa(Int64Succ(2024010100)) == "2024010101"
  {
    assert NatToDecimal(20) == "20";
    assert NatToDecimal(202) == "202";
    assert NatToDecimal(2024) == "2024";
    assert NatToDecimal(20240) == "20240";
    assert NatToDecimal(202401) == "202401";
    assert NatToDecimal(2024010) == "2024010";
    assert NatToDecimal(20240101) == "20240101";
    assert NatToDecimal(202401010) == "202401010";
    assert NatToDecimal(2024010101) == "2024010101";
  }
}
