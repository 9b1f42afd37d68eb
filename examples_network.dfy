/**
 * The inputs of network/network_test.go and of the usage text in main.go,
 * worked through the model.
 */
module NetworkExamples {
  import opened Wrappers
  import opened Bits
  import opened IPv4
  import opened Network

  lemma MaskedOctet(x: Octet)
    ensures And8(x, 0xFF) == x
  {
    assert Pow2(8) == 0x100;
    BitAndOnes(x, 8);
  }

  lemma Mask24()
    ensures CIDRMask(24) == [0xFF, 0xFF, 0xFF, 0]
  {
  }

  lemma Masked24()
    ensures ApplyMask([192, 168, 1, 0], [0xFF, 0xFF, 0xFF, 0]) == [192, 168, 1, 0]
  {
    MaskedOctet(192);
    MaskedOctet(168);
    MaskedOctet(1);
  }

  lemma Block24()
    ensures CidrBlock([192, 168, 1, 0], 24) == IPRange(V4([192, 168, 1, 0]), V4([192, 168, 1, 255]))
  {
    Mask24();
    Masked24();
  }

  /** A CIDR text whose block is known parses to that block. */
  lemma CidrParse(a: Octets, n: PrefixLen, first: Octets, last: Octets)
    requires CidrBlock(a, n) == IPRange(V4(first), V4(last))
    ensures ParseIPRange(FormatIPv4(a) + "/" + Decimal(n)) == Success(IPRange(V4(first), V4(last)))
  {
    ParseCidrBlock(a, n);
  }

  /** A CIDR block spans 2^(32-n) addresses from its first to its last. */
  lemma CidrSpan(a: Octets, n: PrefixLen, first: Octets, last: Octets)
    requires CidrBlock(a, n) == IPRange(V4(first), V4(last))
    ensures var x := Expansion(IPRange(V4(first), V4(last)));
      && |x| == Pow2(32 - n)
      && x[0] == V4(first)
      && x[Pow2(32 - n) - 1] == V4(last)
  {
    var r := CidrBlock(a, n);
    var x := Expansion(r);
    CidrBlockExpansion(a, n);
    assert |x| == Pow2(32 - n) && x[0] == r.StartIP && x[|x| - 1] == r.EndIP;
  }

  /** 192.168.1.0/24 gives the 256 addresses from 192.168.1.0 to 192.168.1.255. */
  lemma CidrExample()
    ensures var r := ParseIPRange(FormatIPv4([192, 168, 1, 0]) + "/" + Decimal(24));
      && r == Success(IPRange(V4([192, 168, 1, 0]), V4([192, 168, 1, 255])))
      && |Expansion(r.value)| == 256
      && Expansion(r.value)[0] == V4([192, 168, 1, 0])
      && Expansion(r.value)[255] == V4([192, 168, 1, 255])
  {
    Block24();
    assert Pow2(8) == 256;
    CidrParse([192, 168, 1, 0], 24, [192, 168, 1, 0], [192, 168, 1, 255]);
    CidrSpan([192, 168, 1, 0], 24, [192, 168, 1, 0], [192, 168, 1, 255]);
  }

  /** 192.168.1.1-192.168.1.5 gives the 5 addresses from 192.168.1.1 to 192.168.1.5. */
  lemma RangeExample()
    ensures var r := ParseIPRange(FormatIPv4([192, 168, 1, 1]) + "-" + FormatIPv4([192, 168, 1, 5]));
      && r == Success(IPRange(V4([192, 168, 1, 1]), V4([192, 168, 1, 5])))
      && |Expansion(r.value)| == 5
      && Expansion(r.value)[0] == V4([192, 168, 1, 1])
      && Expansion(r.value)[4] == V4([192, 168, 1, 5])
  {
    PlainDashRange([192, 168, 1, 1], [192, 168, 1, 5]);
    ExpansionInterval(IPRange(V4([192, 168, 1, 1]), V4([192, 168, 1, 5])));
  }

  /** 192.168.1.1 alone gives the one address 192.168.1.1. */
  lemma SingleExample()
    ensures var r := ParseIPRange(FormatIPv4([192, 168, 1, 1]));
      && r == Success(IPRange(V4([192, 168, 1, 1]), V4([192, 168, 1, 1])))
      && Expansion(r.value) == [V4([192, 168, 1, 1])]
  {
    ParseSingleAddress([192, 168, 1, 1]);
  }

  /** 192.168.1.0/40 is rejected as an invalid CIDR block. */
  lemma InvalidCidrExample()
    ensures ParseIPRange(FormatIPv4([192, 168, 1, 0]) + "/" + Decimal(40)) == Failure(InvalidCIDR)
  {
    PrefixTooLong([192, 168, 1, 0], 40);
  }

  /** The usage text's shorthand 192.168.1.1-100 is rejected as an invalid range. */
  lemma ShorthandExample()
    ensures ParseIPRange(FormatIPv4([192, 168, 1, 1]) + "-" + Decimal(100)) == Failure(InvalidRange)
  {
    ShorthandRangeRejected([192, 168, 1, 1], 100);
  }

  // The texts above, written out as the tests and the usage text write them.

  lemma CidrText()
    ensures FormatIPv4([192, 168, 1, 0]) + "/" + Decimal(24) == "192.168.1.0/24"
  {
  }

  lemma RangeText()
    ensures FormatIPv4([192, 168, 1, 1]) + "-" + FormatIPv4([192, 168, 1, 5]) == "192.168.1.1-192.168.1.5"
  {
    SingleText();
    RangeEndText();
  }

  lemma RangeEndText()
    ensures FormatIPv4([192, 168, 1, 5]) == "192.168.1.5"
  {
  }

  lemma SingleText()
    ensures FormatIPv4([192, 168, 1, 1]) == "192.168.1.1"
  {
  }

  lemma InvalidCidrText()
    ensures FormatIPv4([192, 168, 1, 0]) + "/" + Decimal(40) == "192.168.1.0/40"
  {
  }

  lemma ShorthandText()
    ensures FormatIPv4([192, 168, 1, 1]) + "-" + Decimal(100) == "192.168.1.1-100"
  {
  }
}
