/**
 * Concrete inputs of `clean_ip`, each derived from the general lemmas of
 * module Address: leading zeros, empty and non-numeric segments, a fifth
 * octet, host bits in a network, a zero-padded network address and an
 * out-of-range prefix.
 */
module AddressExamples {
  import opened Wrappers
  import opened Text
  import opened Decimal
  import opened Address

  /** An address token whose segments and kept values are known. */
  lemma AcceptedHost(t: string, segs: seq<string>, ks: seq<nat>, out: string)
    requires '/' !in t && Split(t, '.') == segs && Convertible(segs) && KeptValues(segs) == ks
    requires |ks| == 4 && AreOctets(ks) && Join(Decimals(ks), '.') == out
    ensures Clean(t) == Some(out)
  {
    CleanHostSpec(t);
  }

  lemma RejectedHost(t: string, segs: seq<string>, ks: seq<nat>)
    requires '/' !in t && Split(t, '.') == segs && KeptValues(segs) == ks
    requires |ks| != 4 || !AreOctets(ks)
    ensures Clean(t) == None
  {
    CleanHostSpec(t);
  }

  /** A network token whose halves are known, one of them rejected. */
  lemma RejectedNetwork(t: string, a: string, b: string)
    requires '/' in t && Split(t, '/') == [a, b]
    requires ParseIPv4(a).None? || ParsePrefix(b).None?
    ensures Clean(t) == None
  {
    CleanNetworkSpec(t);
  }

  /** The prefix notation of a network, from its four numerals. */
  lemma NetworkText(v: nat, p: nat, os: seq<nat>, a: string, b: string)
    requires v < Limit && ToBytes(v, 4) == os && Join(Decimals(os), '.') == a
    requires NatToString(p) == b
    ensures FormatNetwork(v, p) == a + "/" + b
  {
  }

  lemma ZeroPaddedSpelling()
    ensures Join(Padded([192, 168, 1, 10], [0, 0, 2, 1]), '.') == "192.168.001.010"
  {
    ZeroPaddedList();
    ZeroPaddedJoin();
  }

  lemma ZeroPaddedList()
    ensures Padded([192, 168, 1, 10], [0, 0, 2, 1]) == ["192", "168", "001", "010"]
  {
    var ps := Padded([192, 168, 1, 10], [0, 0, 2, 1]);
    assert ps[0] == Zeros(0) + NatToString(192);
    assert ps[1] == Zeros(0) + NatToString(168);
    assert ps[2] == Zeros(2) + NatToString(1);
    assert ps[3] == Zeros(1) + NatToString(10);
    PaddedPieces();
  }

  lemma ZeroPaddedJoin()
    ensures Join(["192", "168", "001", "010"], '.') == "192.168.001.010"
  {
    JoinFour("192", "168", "001", "010", '.');
  }

  lemma PaddedPieces()
    ensures Zeros(0) + NatToString(192) == "192"
    ensures Zeros(0) + NatToString(168) == "168"
    ensures Zeros(2) + NatToString(1) == "001"
    ensures Zeros(1) + NatToString(10) == "010"
  {
    assert Zeros(0) == "" && Zeros(1) == "0" && Zeros(2) == "00";
    assert NatToString(192) == "192" && NatToString(168) == "168";
    assert NatToString(1) == "1" && NatToString(10) == "10";
  }

  lemma StrippedSpelling()
    ensures Join(Decimals([192, 168, 1, 10]), '.') == "192.168.1.10"
  {
    StrippedList();
    StrippedJoin();
  }

  lemma StrippedList()
    ensures Decimals([192, 168, 1, 10]) == ["192", "168", "1", "10"]
  {
    assert NatToString(192) == "192" && NatToString(168) == "168";
    assert NatToString(1) == "1" && NatToString(10) == "10";
  }

  lemma StrippedJoin()
    ensures Join(["192", "168", "1", "10"], '.') == "192.168.1.10"
  {
    JoinFour("192", "168", "1", "10", '.');
  }

  /** Leading zeros are stripped from every octet. */
  lemma LeadingZerosExample()
    ensures Clean("192.168.001.010") == Some("192.168.1.10")
  {
    ZeroPaddedSpelling();
    StrippedSpelling();
    ShortPadding([192, 168, 1, 10], [0, 0, 2, 1]);
  }

  /** A few zeros in front of each octet are stripped: they stay far below the limit on numerals. */
  lemma ShortPadding(os: seq<nat>, pads: seq<nat>)
    requires |os| == 4 && |pads| == 4 && AreOctets(os)
    requires forall i :: 0 <= i < 4 ==> pads[i] <= 3
    ensures Clean(Join(Padded(os, pads), '.')) == Some(Join(Decimals(os), '.'))
  {
    forall i | 0 <= i < 4
      ensures pads[i] + |NatToString(os[i])| <= MaxStrDigits
    {
      ShortNumeral(os[i]);
    }
    LeadingZerosStripped(os, pads);
  }

  lemma EmptySegmentNoSlash()
    ensures '/' !in "1..2.3.4"
  {
  }

  lemma EmptySegmentPieces()
    ensures Split("1..2.3.4", '.') == ["1", "", "2", "3", "4"]
  {
    SplitFive("1..2.3.4", "1", "", "2", "3", "4", '.');
  }

  lemma EmptySegmentKept()
    ensures KeptValues(["1", "", "2", "3", "4"]) == [1, 2, 3, 4]
  {
    var tail := ["2", "3", "4"];
    assert Decimals([2, 3, 4]) == tail;
    KeptOfDecimals([2, 3, 4]);
    assert NatToString(1) == "1";
    ValueOfString(1);
    KeptSkip("1", "", tail, 1);
    assert ["1", ""] + tail == ["1", "", "2", "3", "4"];
  }

  /** A digit segment followed by a dropped one. */
  lemma KeptSkip(x: string, y: string, rest: seq<string>, v: nat)
    requires IsDigitString(x) && DigitsValue(x) == v && !IsDigitString(y)
    ensures KeptValues([x, y] + rest) == [v] + KeptValues(rest)
  {
    var segs := [x, y] + rest;
    assert segs[1..] == [y] + rest && segs[1..][1..] == rest;
  }

  lemma EmptySegmentSpelling()
    ensures Join(Decimals([1, 2, 3, 4]), '.') == "1.2.3.4"
  {
    assert NatToString(1) == "1" && NatToString(2) == "2";
    assert NatToString(3) == "3" && NatToString(4) == "4";
    assert Decimals([1, 2, 3, 4]) == ["1", "2", "3", "4"];
    JoinFour("1", "2", "3", "4", '.');
  }

  /** No segment of "1..2.3.4" is too long for `int`. */
  lemma EmptySegmentConvertible()
    ensures Convertible(["1", "", "2", "3", "4"])
  {
  }

  /** An empty segment is dropped before the four-octet check. */
  lemma EmptySegmentExample()
    ensures Clean("1..2.3.4") == Some("1.2.3.4")
  {
    EmptySegmentNoSlash();
    EmptySegmentPieces();
    EmptySegmentKept();
    EmptySegmentSpelling();
    EmptySegmentConvertible();
    AcceptedHost("1..2.3.4", ["1", "", "2", "3", "4"], [1, 2, 3, 4], "1.2.3.4");
  }

  lemma NonNumericNoSlash()
    ensures '/' !in "192.abc.1.1"
  {
  }

  lemma NonNumericKept()
    ensures KeptValues(["192", "abc", "1", "1"]) == [192, 1, 1]
  {
    var tail := ["1", "1"];
    assert NatToString(1) == "1" && NatToString(192) == "192";
    assert Decimals([1, 1]) == tail;
    KeptOfDecimals([1, 1]);
    ValueOfString(192);
    assert !IsDigitString("abc") by {
      assert !IsDigit("abc"[0]);
    }
    KeptSkip("192", "abc", tail, 192);
    assert ["192", "abc"] + tail == ["192", "abc", "1", "1"];
  }

  /** A non-numeric segment is dropped, leaving three octets: rejected. */
  lemma NonNumericExample()
    ensures Clean("192.abc.1.1") == None
  {
    NonNumericNoSlash();
    SplitFour("192.abc.1.1", "192", "abc", "1", "1", '.');
    NonNumericKept();
    RejectedHost("192.abc.1.1", ["192", "abc", "1", "1"], [192, 1, 1]);
  }

  lemma FiveOctetsNoSlash()
    ensures '/' !in "1.2.3.4.5"
  {
  }

  lemma FiveOctetsKept()
    ensures KeptValues(["1", "2", "3", "4", "5"]) == [1, 2, 3, 4, 5]
  {
    var os := [1, 2, 3, 4, 5];
    assert Decimals(os) == ["1", "2", "3", "4", "5"];
    KeptOfDecimals(os);
  }

  /** Five numeric segments: rejected. */
  lemma FiveOctetsExample()
    ensures Clean("1.2.3.4.5") == None
  {
    FiveOctetsNoSlash();
    SplitFive("1.2.3.4.5", "1", "2", "3", "4", "5", '.');
    FiveOctetsKept();
    RejectedHost("1.2.3.4.5", ["1", "2", "3", "4", "5"], [1, 2, 3, 4, 5]);
  }

  lemma Pow2Of24()
    ensures Pow2(24) == 16777216
  {
    assert Pow2(8) == 256;
    Pow2Add(16, 8);
    Pow2Add(8, 8);
  }

  lemma HostSpelling()
    ensures FormatNetwork(167772165, 8) == "10.0.0.5/8"
  {
    HostBytes();
    HostDecimals();
    assert NatToString(8) == "8";
    NetworkText(167772165, 8, [10, 0, 0, 5], "10.0.0.5", "8");
  }

  lemma HostBytes()
    ensures ToBytes(167772165, 4) == [10, 0, 0, 5]
  {
    assert ToBytes(10, 1) == [10];
    assert ToBytes(2560, 2) == ToBytes(10, 1) + [0];
    assert ToBytes(655360, 3) == ToBytes(2560, 2) + [0];
    assert ToBytes(167772165, 4) == ToBytes(655360, 3) + [5];
  }

  lemma HostDecimals()
    ensures Join(Decimals([10, 0, 0, 5]), '.') == "10.0.0.5"
  {
    assert NatToString(10) == "10" && NatToString(0) == "0" && NatToString(5) == "5";
    assert Decimals([10, 0, 0, 5]) == ["10", "0", "0", "5"];
    JoinFour("10", "0", "0", "5", '.');
  }

  lemma NetworkSpelling()
    ensures FormatNetwork(167772160, 8) == "10.0.0.0/8"
  {
    NetworkBytes();
    NetworkDecimals();
    assert NatToString(8) == "8";
    NetworkText(167772160, 8, [10, 0, 0, 0], "10.0.0.0", "8");
  }

  lemma NetworkBytes()
    ensures ToBytes(167772160, 4) == [10, 0, 0, 0]
  {
    assert ToBytes(10, 1) == [10];
    assert ToBytes(2560, 2) == ToBytes(10, 1) + [0];
    assert ToBytes(655360, 3) == ToBytes(2560, 2) + [0];
    assert ToBytes(167772160, 4) == ToBytes(655360, 3) + [0];
  }

  lemma NetworkDecimals()
    ensures Join(Decimals([10, 0, 0, 0]), '.') == "10.0.0.0"
  {
    assert NatToString(10) == "10" && NatToString(0) == "0";
    assert Decimals([10, 0, 0, 0]) == ["10", "0", "0", "0"];
    JoinFour("10", "0", "0", "0", '.');
  }

  /** The host bits of a network are cleared; the prefix stays. */
  lemma HostBitsExample()
    ensures Clean("10.0.0.5/8") == Some("10.0.0.0/8")
  {
    Pow2Of24();
    HostBitsMod(167772165, 8);
    assert ClearHostBits(167772165, 8) == 167772160;
    HostSpelling();
    NetworkSpelling();
    NetworkRoundTrip(167772165, 8);
  }

  lemma PaddedNetworkSlash()
    ensures '/' in "010.0.0.0/8"
  {
    assert "010.0.0.0/8"[9] == '/';
  }

  lemma PaddedAddressRejected()
    ensures ParseIPv4("010.0.0.0") == None
  {
    SplitFour("010.0.0.0", "010", "0", "0", "0", '.');
    assert ParseOctet("010") == None;
  }

  /**
   * The network branch does not strip leading zeros: the library parser
   * rejects "010" as an octet.
   */
  lemma PaddedNetworkExample()
    ensures Clean("010.0.0.0/8") == None
  {
    PaddedNetworkSlash();
    SplitTwo("010.0.0.0/8", "010.0.0.0", "8", '/');
    PaddedAddressRejected();
    RejectedNetwork("010.0.0.0/8", "010.0.0.0", "8");
  }

  lemma LongPrefixSlash()
    ensures '/' in "10.0.0.0/33"
  {
    assert "10.0.0.0/33"[8] == '/';
  }

  lemma LongPrefixRejected()
    ensures ParsePrefix("33") == None
  {
    assert NatToString(33) == "33";
    ValueOfString(33);
  }

  /** A prefix length above 32 is rejected. */
  lemma LongPrefixExample()
    ensures Clean("10.0.0.0/33") == None
  {
    LongPrefixSlash();
    SplitTwo("10.0.0.0/33", "10.0.0.0", "33", '/');
    LongPrefixRejected();
    RejectedNetwork("10.0.0.0/33", "10.0.0.0", "33");
  }

  /**
   * An octet padded past the digit limit of `int` makes `int` raise, and
   * the token is rejected ("1.2.3." followed by 5000 zeros and "4").
   */
  lemma OverlongOctetExample(k: nat)
    requires k >= MaxStrDigits
    ensures Clean(Join(Padded([1, 2, 3, 4], [0, 0, 0, k]), '.')) == None
  {
    assert NatToString(4) == "4";
    PaddedOverlong([1, 2, 3, 4], [0, 0, 0, k], 3);
  }

  /** One padded octet too long for `int` is enough to reject the quad. */
  lemma PaddedOverlong(os: seq<nat>, pads: seq<nat>, i: nat)
    requires |os| == 4 && |pads| == 4 && AreOctets(os)
    requires i < 4 && pads[i] + |NatToString(os[i])| > MaxStrDigits
    ensures Clean(Join(Padded(os, pads), '.')) == None
  {
    LeadingZerosStripped(os, pads);
  }

  /** A prefix length padded past the digit limit of `int` is rejected. */
  lemma OverlongPrefixExample(k: nat)
    requires k >= MaxStrDigits
    ensures Clean("10.0.0.0/" + Zeros(k) + "8") == None
  {
    var a, b := "10.0.0.0", Zeros(k) + "8";
    var t := "10.0.0.0/" + Zeros(k) + "8";
    assert t == a + ['/'] + b;
    assert '/' !in b by {
      assert forall i :: 0 <= i < |b| ==> b[i] == '0' || b[i] == '8';
    }
    SplitTwo(t, a, b, '/');
    assert t[8] == '/';
    assert NatToString(8) == "8";
    PaddedPrefix(k, 8);
    RejectedNetwork(t, a, b);
  }
}
