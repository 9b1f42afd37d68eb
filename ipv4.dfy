/**
 * IPv4 addresses as the range expander sees them: four octets, their
 * big-endian 32-bit value (ipToUint32 / uint32ToIP in network/network.go),
 * the dot-decimal text that `net.ParseIP` accepts and `net.IP.String` prints,
 * and the prefix masks of `net.CIDRMask`.
 */
module IPv4 {
  import opened Wrappers
  import opened GoStrings
  import opened Bits

  /** The 4-byte form of an address (`net.IP.To4`), most significant octet first. */
  type Octets = s: seq<Octet> | |s| == 4 witness [0, 0, 0, 0]

  const Two32: int := 0x1_0000_0000
  const MaxU32: int := 0xFFFF_FFFF

  /** Go's `uint32`. */
  type U32 = n: int | 0 <= n < Two32

  /** ipToUint32: the octets read as a big-endian 32-bit number. No term
      overflows, so each left shift is a multiplication by a power of 256. */
  function ToU32(o: Octets): U32 {
    o[0] as int * 0x100_0000 + o[1] as int * 0x1_0000 + o[2] as int * 0x100 + o[3] as int
  }

  /** Go's `byte(x)` conversion: keeps the low eight bits. */
  function Byte(x: int): Octet {
    x % 0x100
  }

  /** uint32ToIP: each octet is the number shifted right by 24, 16, 8 and 0
      bits and truncated to a byte. */
  function FromU32(n: U32): Octets {
    [Byte(n / 0x100_0000), Byte(n / 0x1_0000), Byte(n / 0x100), Byte(n)]
  }

  lemma DivModUnique(n: int, m: int, q: int, r: int)
    requires m == 0x100 || m == 0x1_0000 || m == 0x100_0000
    requires 0 <= r < m && n == q * m + r
    ensures n / m == q && n % m == r
  {
    if m == 0x100 {
      assert n == q * 0x100 + r;
    } else if m == 0x1_0000 {
      assert n == q * 0x1_0000 + r;
    } else {
      assert n == q * 0x100_0000 + r;
    }
  }

  lemma BaseDigits(a: int, b: int, c: int, d: int, n: int)
    requires 0 <= a < 0x100 && 0 <= b < 0x100 && 0 <= c < 0x100 && 0 <= d < 0x100
    requires n == a * 0x100_0000 + b * 0x1_0000 + c * 0x100 + d
    ensures n / 0x100_0000 % 0x100 == a && n / 0x1_0000 % 0x100 == b
    ensures n / 0x100 % 0x100 == c && n % 0x100 == d
  {
    DivModUnique(n, 0x100_0000, a, b * 0x1_0000 + c * 0x100 + d);
    DivModUnique(n, 0x1_0000, a * 0x100 + b, c * 0x100 + d);
    DivModUnique(n, 0x100, a * 0x1_0000 + b * 0x100 + c, d);
    DivModUnique(a * 0x100 + b, 0x100, a, b);
    DivModUnique(a * 0x1_0000 + b * 0x100 + c, 0x100, a * 0x100 + b, c);
  }

  lemma Recompose(n: int)
    requires 0 <= n < Two32
    ensures n == (n / 0x100_0000 % 0x100) * 0x100_0000 + (n / 0x1_0000 % 0x100) * 0x1_0000
               + (n / 0x100 % 0x100) * 0x100 + n % 0x100
  {
    var q1 := n / 0x100;
    var q2 := q1 / 0x100;
    var q3 := q2 / 0x100;
    DivModUnique(n, 0x1_0000, q2, (q1 % 0x100) * 0x100 + n % 0x100);
    DivModUnique(n, 0x100_0000, q3, (q2 % 0x100) * 0x1_0000 + (q1 % 0x100) * 0x100 + n % 0x100);
  }

  /** uint32ToIP undoes ipToUint32: the octets come back in the same order. */
  lemma FromToU32(o: Octets)
    ensures FromU32(ToU32(o)) == o
  {
    BaseDigits(o[0], o[1], o[2], o[3], ToU32(o));
  }

  /** ipToUint32 undoes uint32ToIP: the first octet carries the most significant byte. */
  lemma ToFromU32(n: U32)
    ensures ToU32(FromU32(n)) == n
    ensures FromU32(n)[0] as int == n / 0x100_0000
  {
    Recompose(n);
  }

  /** Two addresses with the same 32-bit value are the same address. */
  lemma ToU32Injective(a: Octets, b: Octets)
    requires ToU32(a) == ToU32(b)
    ensures a == b
  {
    FromToU32(a);
    FromToU32(b);
  }

  // ---------------------------------------------------------------------
  // Decimal numerals

  predicate IsDigit(c: char) {
    '0' <= c <= '9'
  }

  predicate AllDigits(s: string) {
    forall i :: 0 <= i < |s| ==> IsDigit(s[i])
  }

  function DigitValue(c: char): nat
    requires IsDigit(c)
  {
    c as int - '0' as int
  }

  function DigitChar(d: nat): (c: char)
    requires d < 10
    ensures IsDigit(c) && DigitValue(c) == d
  {
    ('0' as int + d) as char
  }

  /** The number a string of decimal digits denotes (leading zeros allowed). */
  function Value(s: string): nat
    requires AllDigits(s)
  {
    if |s| == 0 then 0 else Value(s[..|s| - 1]) * 10 + DigitValue(s[|s| - 1])
  }

  /** The shortest decimal numeral of `n`, as `strconv.Itoa` and `net.IP.String` print it. */
  function Decimal(n: nat): (s: string)
    ensures |s| > 0 && AllDigits(s)
    ensures s[0] == '0' ==> n == 0
  {
    if n < 10 then [DigitChar(n)] else Decimal(n / 10) + [DigitChar(n % 10)]
  }

  /** A numeral without a redundant leading zero. */
  predicate Canonical(s: string) {
    |s| > 0 && AllDigits(s) && (|s| > 1 ==> s[0] != '0')
  }

  lemma {:induction false} ValueOfDecimal(n: nat)
    ensures Value(Decimal(n)) == n
  {
    if n >= 10 {
      ValueOfDecimal(n / 10);
      var s := Decimal(n);
      assert s[..|s| - 1] == Decimal(n / 10);
    }
  }

  lemma {:induction false} ZeroValueAllZeros(s: string)
    requires AllDigits(s) && |s| > 0 && s[0] != '0'
    ensures Value(s) > 0
  {
    if |s| > 1 {
      ZeroValueAllZeros(s[..|s| - 1]);
    }
  }

  /** A canonical numeral is exactly what Decimal prints for its value. */
  lemma {:induction false} DecimalOfValue(s: string)
    requires Canonical(s)
    ensures Decimal(Value(s)) == s
  {
    var init := s[..|s| - 1];
    if |init| > 0 {
      ZeroValueAllZeros(init);
      DecimalOfValue(init);
      assert Value(s) / 10 == Value(init) && Value(s) % 10 == DigitValue(s[|s| - 1]);
      assert init + [s[|s| - 1]] == s;
    }
  }

  // ---------------------------------------------------------------------
  // Dot-decimal text

  /** One field of a dot-decimal address: digits only, no leading zero, at most 255. */
  function ParseOctet(f: string): (r: Option<Octet>)
  {
    if Canonical(f) && Value(f) <= 255 then Some(Value(f)) else None
  }

  /** The four octets in decimal, most significant first. */
  function Fields4(o: Octets): seq<string> {
    [Decimal(o[0]), Decimal(o[1]), Decimal(o[2]), Decimal(o[3])]
  }

  /** net.IP.String for a 4-byte address: the octets in decimal, joined by dots. */
  function FormatIPv4(o: Octets): string {
    Join(Fields4(o), '.')
  }

  lemma JoinFour(f: seq<string>)
    requires |f| == 4
    ensures Join(f, '.') == f[0] + "." + (f[1] + "." + (f[2] + "." + f[3]))
  {
    assert Join(f[3..], '.') == f[3];
    assert Join(f[2..], '.') == f[2] + "." + Join(f[3..], '.');
    assert Join(f[1..], '.') == f[1] + "." + Join(f[2..], '.');
  }

  /** net.ParseIP restricted to IPv4 dot-decimal text: exactly four fields
      separated by dots, each a decimal numeral from 0 to 255 without a
      leading zero. */
  function ParseIPv4(s: string): (r: Option<Octets>)
  {
    var parts := Split(s, '.');
    if |parts| != 4 then None
    else
      match (ParseOctet(parts[0]), ParseOctet(parts[1]), ParseOctet(parts[2]), ParseOctet(parts[3]))
      case (Some(a), Some(b), Some(c), Some(d)) => Some([a, b, c, d])
      case _ => None
  }

  lemma ParseFormatOctet(b: Octet)
    ensures ParseOctet(Decimal(b)) == Some(b)
  {
    ValueOfDecimal(b);
  }

  lemma FormatParseOctet(f: string)
    requires ParseOctet(f).Some?
    ensures Decimal(ParseOctet(f).value) == f
  {
    DecimalOfValue(f);
  }

  lemma DecimalHasNoDot(n: nat)
    ensures '.' !in Decimal(n)
  {
    var s := Decimal(n);
    assert forall i :: 0 <= i < |s| ==> s[i] != '.' by {
      forall i | 0 <= i < |s| ensures s[i] != '.' {
        assert IsDigit(s[i]);
      }
    }
  }

  /** The printed form consists of digits and dots, and starts and ends with a digit. */
  lemma FormatIPv4Chars(o: Octets)
    ensures var s := FormatIPv4(o);
      && |s| > 0 && IsDigit(s[0]) && IsDigit(s[|s| - 1])
      && forall k :: 0 <= k < |s| ==> IsDigit(s[k]) || s[k] == '.'
  {
    var f := Fields4(o);
    JoinChars(f, '.', c => IsDigit(c) || c == '.');
    var s := FormatIPv4(o);
    JoinFour(f);
    assert s[0] == f[0][0];
    assert s[|s| - 1] == f[3][|f[3]| - 1];
  }

  lemma ParseFields(s: string, o: Octets)
    requires |Split(s, '.')| == 4
    requires forall i :: 0 <= i < 4 ==> ParseOctet(Split(s, '.')[i]) == Some(o[i])
    ensures ParseIPv4(s) == Some(o)
  {
    assert [o[0], o[1], o[2], o[3]] == o;
  }

  lemma SplitFormatIPv4(o: Octets)
    ensures Split(FormatIPv4(o), '.') == Fields4(o)
  {
    var f := Fields4(o);
    DecimalHasNoDot(o[0]);
    DecimalHasNoDot(o[1]);
    DecimalHasNoDot(o[2]);
    DecimalHasNoDot(o[3]);
    SplitJoin(f, '.');
  }

  /** The parser reads back every address the formatter prints. */
  lemma ParseFormatIPv4(o: Octets)
    ensures ParseIPv4(FormatIPv4(o)) == Some(o)
  {
    SplitFormatIPv4(o);
    ParseFormatOctet(o[0]);
    ParseFormatOctet(o[1]);
    ParseFormatOctet(o[2]);
    ParseFormatOctet(o[3]);
    ParseFields(FormatIPv4(o), o);
  }

  /** The parser accepts only the text the formatter prints: no other spelling of an address is read. */
  lemma FormatParseIPv4(s: string)
    requires ParseIPv4(s).Some?
    ensures FormatIPv4(ParseIPv4(s).value) == s
  {
    var p := Split(s, '.');
    JoinSplit(s, '.');
    FormatParseOctet(p[0]);
    FormatParseOctet(p[1]);
    FormatParseOctet(p[2]);
    FormatParseOctet(p[3]);
    assert Fields4(ParseIPv4(s).value) == p;
  }

  /** The accepted texts are exactly the printed forms, one per address. */
  lemma ParseIPv4Exact(s: string, o: Octets)
    ensures ParseIPv4(s) == Some(o) <==> s == FormatIPv4(o)
  {
    ParseFormatIPv4(o);
    if ParseIPv4(s).Some? {
      FormatParseIPv4(s);
    }
  }

  // ---------------------------------------------------------------------
  // Prefix masks

  /** How many bits of the prefix fall in an octet that k of them reach. */
  function PrefixBits(k: int): (b: nat)
    ensures b <= 8
  {
    if k >= 8 then 8 else if k <= 0 then 0 else k
  }

  /** One octet of net.CIDRMask, for a prefix that has k bits left when it
      reaches this octet: all ones when k >= 8, otherwise the complement of 0xFF shifted right by k. */
  function MaskByte(k: int): Octet {
    if k >= 8 then 0xFF else Not8(0xFF / Pow2(PrefixBits(k)))
  }

  /** net.CIDRMask(n, 32): n one bits followed by 32 - n zero bits. */
  function CIDRMask(n: nat): Octets
    requires n <= 32
  {
    [MaskByte(n), MaskByte(n - 8), MaskByte(n - 16), MaskByte(n - 24)]
  }

  /** net.IP.Mask for a 4-byte address: octet-wise AND with the mask. */
  function ApplyMask(a: Octets, m: Octets): Octets {
    [And8(a[0], m[0]), And8(a[1], m[1]), And8(a[2], m[2]), And8(a[3], m[3])]
  }

  /** Octet-wise complement: the host bits of a mask. */
  function Complement(m: Octets): Octets {
    [Not8(m[0]), Not8(m[1]), Not8(m[2]), Not8(m[3])]
  }

  lemma Pow2Octets()
    ensures Pow2(8) == 0x100 && Pow2(16) == 0x1_0000 && Pow2(24) == 0x100_0000
  {
    assert Pow2(8) == 0x100;
    assert Pow2(16) == 0x1_0000 by { Pow2Add(8, 8); }
    assert Pow2(24) == 0x100_0000 by { Pow2Add(16, 8); }
  }

  /** A mask octet is the run of its prefix bits at the top of the octet. */
  lemma MaskByteHigh(k: int)
    ensures MaskByte(k) == HighBits(8, 8 - PrefixBits(k))
  {
    var b := PrefixBits(k);
    assert Pow2(8) == 0x100;
    if b == 1 {
    } else if b == 2 {
    } else if b == 3 {
    } else if b == 4 {
    } else if b == 5 {
    } else if b == 6 {
    } else if b == 7 {
    }
  }

  /** The value of the host bits of an octet that k prefix bits reach. */
  function HostValue(k: int): int {
    Pow2(8 - PrefixBits(k)) - 1
  }

  /** Masking an octet keeps it in the block its prefix bits select, and
      setting the host bits of the masked octet adds exactly their value. */
  lemma OctetBlock(x: Octet, k: int)
    ensures var m := MaskByte(k); var s := And8(x, m);
      && Not8(m) == HostValue(k)
      && Or8(s, Not8(m)) == s + Not8(m)
      && s <= x <= s + Not8(m)
  {
    var j := 8 - PrefixBits(k);
    MaskByteHigh(k);
    HighBlock(x, j);
    assert Not8(MaskByte(k)) == Pow2(j) - 1 by {
      assert Pow2(8) == 0x100;
    }
  }

  /** The same, for the mask that keeps the bits of an octet from position j up. */
  lemma HighBlock(x: Octet, j: nat)
    requires j <= 8
    ensures var s := BitAnd(x, HighBits(8, j));
      && x - s < Pow2(j)
      && BitOr(s, Pow2(j) - 1) == s + Pow2(j) - 1
  {
    assert Pow2(8) == 0x100;
    BitAndHigh(x, 8, j);
    BitAndHighClear(x, 8, j);
    BitOrLow(BitAnd(x, HighBits(8, j)), j);
  }

  lemma HostValueSum(n: int)
    requires 0 <= n <= 32
    ensures HostValue(n) * 0x100_0000 + HostValue(n - 8) * 0x1_0000 + HostValue(n - 16) * 0x100 + HostValue(n - 24)
         == Pow2(32 - n) - 1
  {
    if n <= 8 {
      HostSumFirst(n);
    } else if n <= 16 {
      HostSumSecond(n);
    } else if n <= 24 {
      HostSumThird(n);
    } else {
      HostSumFourth(n);
    }
  }

  /** The sum for a prefix that ends in the first octet. */
  lemma HostSumFirst(n: int)
    requires 0 <= n <= 8
    ensures HostValue(n) * 0x100_0000 + HostValue(n - 8) * 0x1_0000 + HostValue(n - 16) * 0x100 + HostValue(n - 24)
         == Pow2(32 - n) - 1
  {
    var p := Pow2(8 - n);
    assert Pow2(0) == 1 && Pow2(8) == 0x100;
    assert HostValue(n) == p - 1;
    assert HostValue(n - 8) == 0xFF;
    assert HostValue(n - 16) == 0xFF;
    assert HostValue(n - 24) == 0xFF;
    Pow2Octets();
    Pow2Add(8 - n, 24);
    WeightedHosts(HostValue(n), HostValue(n - 8), HostValue(n - 16), HostValue(n - 24), p, Pow2(32 - n), 0);
  }

  /** The sum for a prefix that ends in the second octet. */
  lemma HostSumSecond(n: int)
    requires 9 <= n <= 16
    ensures HostValue(n) * 0x100_0000 + HostValue(n - 8) * 0x1_0000 + HostValue(n - 16) * 0x100 + HostValue(n - 24)
         == Pow2(32 - n) - 1
  {
    var p := Pow2(16 - n);
    assert Pow2(0) == 1 && Pow2(8) == 0x100;
    assert HostValue(n) == 0;
    assert HostValue(n - 8) == p - 1;
    assert HostValue(n - 16) == 0xFF;
    assert HostValue(n - 24) == 0xFF;
    Pow2Octets();
    Pow2Add(16 - n, 16);
    WeightedHosts(HostValue(n), HostValue(n - 8), HostValue(n - 16), HostValue(n - 24), p, Pow2(32 - n), 1);
  }

  /** The sum for a prefix that ends in the third octet. */
  lemma HostSumThird(n: int)
    requires 17 <= n <= 24
    ensures HostValue(n) * 0x100_0000 + HostValue(n - 8) * 0x1_0000 + HostValue(n - 16) * 0x100 + HostValue(n - 24)
         == Pow2(32 - n) - 1
  {
    var p := Pow2(24 - n);
    assert Pow2(0) == 1 && Pow2(8) == 0x100;
    assert HostValue(n) == 0;
    assert HostValue(n - 8) == 0;
    assert HostValue(n - 16) == p - 1;
    assert HostValue(n - 24) == 0xFF;
    Pow2Octets();
    Pow2Add(24 - n, 8);
    WeightedHosts(HostValue(n), HostValue(n - 8), HostValue(n - 16), HostValue(n - 24), p, Pow2(32 - n), 2);
  }

  /** The sum for a prefix that ends in the fourth octet. */
  lemma HostSumFourth(n: int)
    requires 25 <= n <= 32
    ensures HostValue(n) * 0x100_0000 + HostValue(n - 8) * 0x1_0000 + HostValue(n - 16) * 0x100 + HostValue(n - 24)
         == Pow2(32 - n) - 1
  {
    var p := Pow2(32 - n);
    assert Pow2(0) == 1 && Pow2(8) == 0x100;
    assert HostValue(n) == 0;
    assert HostValue(n - 8) == 0;
    assert HostValue(n - 16) == 0;
    assert HostValue(n - 24) == p - 1;
    Pow2Octets();
    WeightedHosts(HostValue(n), HostValue(n - 8), HostValue(n - 16), HostValue(n - 24), p, Pow2(32 - n), 3);
  }

  /** Octet `i` holds p - 1, the octets before it nothing, the octets after it all ones. */
  lemma WeightedHosts(h0: int, h1: int, h2: int, h3: int, p: int, total: int, i: int)
    requires 0 <= i < 4
    requires i == 0 ==> h0 == p - 1 && h1 == h2 == h3 == 0xFF && total == p * 0x100_0000
    requires i == 1 ==> h0 == 0 && h1 == p - 1 && h2 == h3 == 0xFF && total == p * 0x1_0000
    requires i == 2 ==> h0 == h1 == 0 && h2 == p - 1 && h3 == 0xFF && total == p * 0x100
    requires i == 3 ==> h0 == h1 == h2 == 0 && h3 == p - 1 && total == p
    ensures h0 * 0x100_0000 + h1 * 0x1_0000 + h2 * 0x100 + h3 == total - 1
  {
  }

  /** The host bits of an n-bit prefix mask, read as a number, are 2^(32-n) - 1. */
  lemma HostCount(n: nat)
    requires n <= 32
    ensures ToU32(Complement(CIDRMask(n))) == Pow2(32 - n) - 1
  {
    OctetBlock(0, n);
    OctetBlock(0, n - 8);
    OctetBlock(0, n - 16);
    OctetBlock(0, n - 24);
    HostValueSum(n);
  }

  /** Masking an already masked address changes nothing. */
  lemma ApplyMaskIdempotent(a: Octets, m: Octets)
    ensures ApplyMask(ApplyMask(a, m), m) == ApplyMask(a, m)
  {
    BitAndIdempotent(a[0], m[0]);
    BitAndIdempotent(a[1], m[1]);
    BitAndIdempotent(a[2], m[2]);
    BitAndIdempotent(a[3], m[3]);
  }
}
