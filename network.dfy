/**
 * The range expander of network/network.go: it turns the text a user types
 * (a CIDR block, a dash range or a single address) into an IPRange, and an
 * IPRange into the list of IPv4 addresses to scan.
 */
module Network {
  import opened Wrappers
  import opened GoStrings
  import opened Bits
  import opened IPv4

  /** A `net.IP`: an address with a 4-byte form, or one without (an IPv6
      address), which the expander never enumerates. */
  datatype IP = V4(octets: Octets) | NonV4(text: string)

  /** The first and last address of a scan, both inclusive. */
  datatype IPRange = IPRange(StartIP: IP, EndIP: IP)

  /** ErrInvalidIPAddress, ErrInvalidCIDR and ErrInvalidRange. */
  datatype ParseError = InvalidIPAddress | InvalidCIDR | InvalidRange

  /** A prefix length of a 32-bit address. */
  type PrefixLen = n: nat | n <= 32

  /** net.ParseIP on the address texts the model covers (dot-decimal IPv4). */
  function ParseIP(s: string): (r: Option<IP>)
    ensures r.Some? ==> r.value.V4? && s == FormatIPv4(r.value.octets)
  {
    match ParseIPv4(s)
    case Some(o) => ParseIPv4Exact(s, o); Some(V4(o))
    case None => None
  }

  /** net.IP.String */
  function IPString(ip: IP): string {
    match ip
    case V4(o) => FormatIPv4(o)
    case NonV4(t) => t
  }

  /** The prefix length after the slash of a CIDR block, as `net.ParseCIDR`
      reads it: decimal digits (leading zeros allowed) denoting at most 32. */
  function ParsePrefix(t: string): Option<PrefixLen> {
    if |t| > 0 && AllDigits(t) && Value(t) <= 32 then Some(Value(t)) else None
  }

  /** net.ParseCIDR on IPv4 text: the address before the first slash and the
      prefix length after it. */
  function ParseCIDRText(cidr: string): (r: Option<(Octets, PrefixLen)>)
    ensures r.Some? ==> '/' in cidr
  {
    match Cut(cidr, '/')
    case None => None
    case Some((addr, prefix)) =>
      match (ParseIPv4(addr), ParsePrefix(prefix))
      case (Some(a), Some(n)) => Some((a, n))
      case _ => None
  }

  /** Each start octet OR the complement of its mask octet: the start address with every host bit set. */
  function Broadcast(start: Octets, mask: Octets): Octets {
    [Or8(start[0], Not8(mask[0])), Or8(start[1], Not8(mask[1])),
     Or8(start[2], Not8(mask[2])), Or8(start[3], Not8(mask[3]))]
  }

  /** The block an address lies in under an n-bit prefix: from the network
      address to the broadcast address. */
  function CidrBlock(a: Octets, n: PrefixLen): IPRange {
    var mask := CIDRMask(n);
    var start := ApplyMask(a, mask);
    IPRange(V4(start), V4(Broadcast(start, mask)))
  }

  /** What parseCIDR returns for a text. */
  function CidrRange(cidr: string): Result<IPRange, ParseError> {
    match ParseCIDRText(cidr)
    case None => Failure(InvalidCIDR)
    case Some((a, n)) => Success(CidrBlock(a, n))
  }

  /** parseCIDR: the network address is the address under the mask; the end
      address is the network address with every host bit set. */
  method ParseCIDR(cidr: string) returns (r: Result<IPRange, ParseError>)
    ensures r == CidrRange(cidr)
  {
    var parsed := ParseCIDRText(cidr);
    if parsed.None? {
      return Failure(InvalidCIDR);
    }
    var ip, ones := parsed.value.0, parsed.value.1;
    var mask := CIDRMask(ones);
    var startIP := ApplyMask(ip, mask);
    var endIP := SetHostBits(startIP, mask);
    r := Success(IPRange(V4(startIP), V4(endIP)));
  }

  /** The end-address loop of parseCIDR: a fresh 4-byte buffer starts as a
      copy of the network address and gets the complement of the mask OR-ed
      in octet by octet. */
  method SetHostBits(startIP: Octets, mask: Octets) returns (endIP: Octets)
    ensures endIP == Broadcast(startIP, mask)
  {
    var buffer := new Octet[4](i requires 0 <= i < 4 => startIP[i]);
    for i := 0 to buffer.Length
      invariant forall j :: 0 <= j < i ==> buffer[j] == Or8(startIP[j], Not8(mask[j]))
    {
      buffer[i] := Or8(startIP[i], Not8(mask[i]));
    }
    assert buffer[..] == Broadcast(startIP, mask);
    endIP := buffer[..];
  }

  /** parseRange: exactly one dash, and an address on each side once the
      white space around it is trimmed. */
  function ParseRange(rangeStr: string): (r: Result<IPRange, ParseError>)
    ensures r.Failure? ==> r.error == InvalidRange
  {
    var parts := Split(rangeStr, '-');
    if |parts| != 2 then Failure(InvalidRange)
    else
      match (ParseIP(TrimSpace(parts[0])), ParseIP(TrimSpace(parts[1])))
      case (Some(startIP), Some(endIP)) => Success(IPRange(startIP, endIP))
      case _ => Failure(InvalidRange)
  }

  /** ParseIPRange: a slash makes the text a CIDR block, otherwise a dash
      makes it a range, otherwise it must be a single address. */
  function ParseIPRange(ipRange: string): (r: Result<IPRange, ParseError>)
    ensures r.Failure? ==>
      r.error == (if '/' in ipRange then InvalidCIDR else if '-' in ipRange then InvalidRange else InvalidIPAddress)
    ensures r.Success? ==> r.value.StartIP.V4? && r.value.EndIP.V4?
  {
    if '/' in ipRange then
      CidrRange(ipRange)
    else if '-' in ipRange then
      ParseRange(ipRange)
    else
      match ParseIP(ipRange)
      case None => Failure(InvalidIPAddress)
      case Some(ip) => Success(IPRange(ip, ip))
  }

  // ---------------------------------------------------------------------
  // Expansion

  /** The `count` consecutive addresses starting at `lo`, in ascending order. */
  function Block(lo: U32, count: nat): seq<IP>
    requires lo + count <= Two32
  {
    seq(count, k requires 0 <= k < count => V4(FromU32(lo + k)))
  }

  /** The addresses a range stands for: every address from the start to the
      end, ascending; none when an end has no 4-byte form or the start lies
      above the end. */
  function Expansion(r: IPRange): seq<IP> {
    if r.StartIP.V4? && r.EndIP.V4? && ToU32(r.StartIP.octets) <= ToU32(r.EndIP.octets) then
      var s, e := ToU32(r.StartIP.octets), ToU32(r.EndIP.octets);
      Block(s, e - s + 1)
    else
      []
  }

  /** A list whose k-th entry is the start address plus k, and which is as
      long as the range, is its expansion. */
  lemma ExpansionIs(r: IPRange, ips: seq<IP>)
    requires r.StartIP.V4? && r.EndIP.V4?
    requires var s, e := ToU32(r.StartIP.octets), ToU32(r.EndIP.octets);
      && |ips| == (if s <= e then e - s + 1 else 0)
      && forall k :: 0 <= k < |ips| ==> ips[k] == V4(FromU32(s + k))
    ensures ips == Expansion(r)
  {
  }

  /** Incrementing a uint32 counter: 0xFFFFFFFF wraps to 0. */
  function Increment(i: U32): U32 {
    (i + 1) % Two32
  }

  /** The capacity GenerateIPs reserves: end - start + 1 in uint32 arithmetic, so modulo 2^32. */
  function PreSize(start: U32, end: U32): U32 {
    (end - start + 1) % Two32
  }

  /** The capacity the expansion actually needs. */
  function PreSizeChecked(start: U32, end: U32): (n: nat)
    ensures n == |Expansion(IPRange(V4(FromU32(start)), V4(FromU32(end))))|
  {
    ToFromU32(start);
    ToFromU32(end);
    if start <= end then end - start + 1 else 0
  }

  /** The range ends at 255.255.255.255, the one end address for which no
      uint32 counter exceeds the end. */
  predicate EndsAtTop(r: IPRange) {
    r.StartIP.V4? && r.EndIP.V4? && ToU32(r.EndIP.octets) == MaxU32
  }

  /** GenerateIPs as written: a uint32 counter from the start while it does
      not exceed the end. */
  method GenerateIPs(r: IPRange) returns (ips: seq<IP>)
    requires !EndsAtTop(r)
    ensures ips == Expansion(r)
    ensures !r.StartIP.V4? || !r.EndIP.V4? ==> ips == []
  {
    if !r.StartIP.V4? || !r.EndIP.V4? {
      return [];
    }
    var start := ToU32(r.StartIP.octets);
    var end := ToU32(r.EndIP.octets);
    var capacity := PreSize(start, end);
    ips := [];
    var i: U32 := start;
    while i <= end
      invariant start <= i
      invariant i <= end + 1 || i == start
      invariant |ips| == i - start
      invariant forall k :: 0 <= k < |ips| ==> ips[k] == V4(FromU32(start + k))
      decreases end + 1 - i
    {
      ips := ips + [V4(FromU32(i))];
      i := Increment(i);
    }
    ExpansionIs(r, ips);
  }

  /** GenerateIPs with a counter wider than 32 bits, which does exceed
      255.255.255.255 and so ends for every range. */
  method GenerateIPsInclusive(r: IPRange) returns (ips: seq<IP>)
    ensures ips == Expansion(r)
    ensures !r.StartIP.V4? || !r.EndIP.V4? ==> ips == []
  {
    if !r.StartIP.V4? || !r.EndIP.V4? {
      return [];
    }
    var start := ToU32(r.StartIP.octets);
    var end := ToU32(r.EndIP.octets);
    var capacity := PreSizeChecked(start, end);
    ips := [];
    var i: int := start;
    while i <= end
      invariant start <= i
      invariant i <= end + 1 || i == start
      invariant |ips| == i - start
      invariant forall k :: 0 <= k < |ips| ==> ips[k] == V4(FromU32(start + k))
      decreases end + 1 - i
    {
      ips := ips + [V4(FromU32(i))];
      i := i + 1;
    }
    ExpansionIs(r, ips);
  }

  // ---------------------------------------------------------------------
  // What the uint32 counter and the uint32 pre-size do at the edges

  /** The uint32 counter of GenerateIPs after n increments from i. */
  function Counter(i: U32, n: nat): (c: U32)
    ensures c == (i + n) % Two32
  {
    if n == 0 then i
    else
      var c := Counter(i, n - 1);
      assert c + 1 == (i + n) % Two32 || (c + 1 == Two32 && (i + n) % Two32 == 0);
      Increment(c)
  }

  /** With the end at 255.255.255.255, the loop guard holds after any number
      of iterations, and the counter comes back to 0.0.0.0 after the top. */
  lemma TopNeverExits(r: IPRange, n: nat)
    requires EndsAtTop(r)
    ensures Counter(ToU32(r.StartIP.octets), n) <= ToU32(r.EndIP.octets)
    ensures Counter(ToU32(r.StartIP.octets), Two32 - ToU32(r.StartIP.octets)) == 0
  {
  }

  /** "255.255.255.255" is a valid single-address range that ends at the top. */
  lemma TopAddressParses()
    ensures var r := ParseIPRange(FormatIPv4([0xFF, 0xFF, 0xFF, 0xFF]));
      r.Success? && EndsAtTop(r.value)
  {
    ParseSingleAddress([0xFF, 0xFF, 0xFF, 0xFF]);
  }

  /** When the start lies more than one above the end, the uint32 pre-size
      wraps to nearly 2^32 although the range has no address. */
  lemma PreSizeWraps(start: U32, end: U32)
    requires start > end + 1
    ensures PreSize(start, end) == Two32 - (start - end - 1)
    ensures PreSize(start, end) > 0 && PreSizeChecked(start, end) == 0
  {
  }

  /** The checked pre-size never exceeds 2^32 and is 0 for a reversed range. */
  lemma PreSizeCheckedBound(start: U32, end: U32)
    ensures PreSizeChecked(start, end) <= Two32
    ensures PreSizeChecked(start, end) == 0 <==> start > end
    ensures start <= end ==> PreSizeChecked(start, end) == PreSize(start, end) || end - start + 1 == Two32
  {
    assert PreSizeChecked(start, end) == if start <= end then end - start + 1 else 0;
  }

  /** 192.168.1.5-192.168.1.1 reserves 4294967293 slots for no address. */
  lemma ReversedRangeExample()
    ensures var a, b: Octets := [192, 168, 1, 5], [192, 168, 1, 1];
      && PreSize(ToU32(a), ToU32(b)) == 4294967293
      && Expansion(IPRange(V4(a), V4(b))) == []
  {
  }

  // ---------------------------------------------------------------------
  // Properties of the expansion

  /** The expansion is the interval from start to end: its k-th address has
      the value start + k, so it ascends by one, repeats nothing, begins at
      the start and ends at the end. */
  lemma ExpansionInterval(r: IPRange)
    requires r.StartIP.V4? && r.EndIP.V4?
    ensures var s, e, x := ToU32(r.StartIP.octets), ToU32(r.EndIP.octets), Expansion(r);
      && |x| == (if s <= e then e - s + 1 else 0)
      && (forall k :: 0 <= k < |x| ==> x[k].V4? && ToU32(x[k].octets) == s + k)
      && (s <= e ==> x[0] == r.StartIP && x[|x| - 1] == r.EndIP)
      && (forall j, k :: 0 <= j < k < |x| ==> x[j] != x[k])
  {
    var s, e, x := ToU32(r.StartIP.octets), ToU32(r.EndIP.octets), Expansion(r);
    forall k | 0 <= k < |x|
      ensures x[k].V4? && ToU32(x[k].octets) == s + k
    {
      ToFromU32(s + k);
    }
    if s <= e {
      FromToU32(r.StartIP.octets);
      FromToU32(r.EndIP.octets);
    }
    forall j, k | 0 <= j < k < |x|
      ensures x[j] != x[k]
    {
      assert ToU32(x[j].octets) != ToU32(x[k].octets);
    }
  }

  /** An address is in the expansion exactly when it lies between the two ends. */
  lemma ExpansionMembership(r: IPRange, a: Octets)
    requires r.StartIP.V4? && r.EndIP.V4?
    ensures V4(a) in Expansion(r) <==> ToU32(r.StartIP.octets) <= ToU32(a) <= ToU32(r.EndIP.octets)
  {
    var s, e, x := ToU32(r.StartIP.octets), ToU32(r.EndIP.octets), Expansion(r);
    ExpansionInterval(r);
    if s <= ToU32(a) <= e {
      var k := ToU32(a) - s;
      FromToU32(a);
      assert x[k] == V4(a);
    }
  }

  lemma WeightedSum(b: Octets, s: Octets, c: Octets)
    requires b[0] == s[0] as int + c[0] && b[1] == s[1] as int + c[1]
    requires b[2] == s[2] as int + c[2] && b[3] == s[3] as int + c[3]
    ensures ToU32(b) == ToU32(s) + ToU32(c)
  {
  }

  lemma WeightedOrder(x: Octets, y: Octets)
    requires x[0] <= y[0] && x[1] <= y[1] && x[2] <= y[2] && x[3] <= y[3]
    ensures ToU32(x) <= ToU32(y)
  {
  }

  /** Setting the host bits of a network address adds exactly their value,
      and the address it was written with lies between the two. */
  lemma BlockValues(a: Octets, n: PrefixLen)
    ensures var mask := CIDRMask(n); var s := ApplyMask(a, mask); var b := Broadcast(s, mask);
      && ToU32(b) == ToU32(s) + ToU32(Complement(mask))
      && ToU32(s) <= ToU32(a) <= ToU32(b)
  {
    var mask := CIDRMask(n);
    var s := ApplyMask(a, mask);
    var b := Broadcast(s, mask);
    var c := Complement(mask);
    OctetBlock(a[0], n);
    OctetBlock(a[1], n - 8);
    OctetBlock(a[2], n - 16);
    OctetBlock(a[3], n - 24);
    WeightedSum(b, s, c);
    WeightedOrder(s, a);
    WeightedOrder(a, b);
  }

  /** An n-bit block holds 2^(32-n) addresses, from the network address to
      the broadcast address, one of them the address it was written with. */
  lemma CidrBlockExpansion(a: Octets, n: PrefixLen)
    ensures var r := CidrBlock(a, n); var x := Expansion(r);
      && |x| == Pow2(32 - n)
      && x[0] == r.StartIP && x[|x| - 1] == r.EndIP
      && V4(a) in x
  {
    var r := CidrBlock(a, n);
    BlockValues(a, n);
    HostCount(n);
    ExpansionInterval(r);
    ExpansionMembership(r, a);
  }

  /** The host bits of the address written in a CIDR block do not matter. */
  lemma CidrHostBitsIgnored(a: Octets, n: PrefixLen)
    ensures CidrBlock(a, n) == CidrBlock(ApplyMask(a, CIDRMask(n)), n)
  {
    ApplyMaskIdempotent(a, CIDRMask(n));
  }

  // ---------------------------------------------------------------------
  // What the parser accepts

  lemma NoSlashOrDash(o: Octets)
    ensures '/' !in FormatIPv4(o) && '-' !in FormatIPv4(o)
    ensures |FormatIPv4(o)| > 0 && !IsSpace(FormatIPv4(o)[0]) && !IsSpace(FormatIPv4(o)[|FormatIPv4(o)| - 1])
  {
    FormatIPv4Chars(o);
  }

  /** A printed address is a range of that one address. */
  lemma ParseSingleAddress(a: Octets)
    ensures ParseIPRange(FormatIPv4(a)) == Success(IPRange(V4(a), V4(a)))
    ensures Expansion(IPRange(V4(a), V4(a))) == [V4(a)]
  {
    NoSlashOrDash(a);
    ParseFormatIPv4(a);
    ExpansionInterval(IPRange(V4(a), V4(a)));
  }

  /** A blank string holds only white space, so no other character. */
  lemma BlankLacks(s: string, c: char)
    requires Blank(s) && !IsSpace(c)
    ensures c !in s
  {
    assert forall i :: 0 <= i < |s| ==> s[i] != c;
  }

  /** Text with one dash and no slash is read as a range of the trimmed
      texts on either side of the dash. */
  lemma DashSides(left: string, right: string)
    requires '-' !in left && '-' !in right && '/' !in left && '/' !in right
    ensures ParseIPRange(left + "-" + right) ==
      match (ParseIP(TrimSpace(left)), ParseIP(TrimSpace(right)))
      case (Some(x), Some(y)) => Success(IPRange(x, y))
      case _ => Failure(InvalidRange)
  {
    var s := left + "-" + right;
    assert s == left + ['-'] + right;
    assert s[|left|] == '-';
    assert '/' !in s;
    SplitAfterPiece(left, right, '-');
    SplitWhole(right, '-');
    assert Split(s, '-') == [left, right];
  }

  /** A printed address with white space around it. */
  lemma PaddedAddress(pre: string, a: Octets, post: string)
    requires Blank(pre) && Blank(post)
    ensures var t := pre + FormatIPv4(a) + post;
      '-' !in t && '/' !in t && ParseIP(TrimSpace(t)) == Some(V4(a))
  {
    NoSlashOrDash(a);
    BlankLacks(pre, '-');
    BlankLacks(pre, '/');
    BlankLacks(post, '-');
    BlankLacks(post, '/');
    TrimSpaceAround(pre, FormatIPv4(a), post);
    ParseFormatIPv4(a);
  }

  /** Two printed addresses around one dash, with any white space next to
      the dash or at the ends, are the range between them. */
  lemma ParseDashRange(a: Octets, b: Octets, pre: string, mid1: string, mid2: string, post: string)
    requires Blank(pre) && Blank(mid1) && Blank(mid2) && Blank(post)
    ensures ParseIPRange((pre + FormatIPv4(a) + mid1) + "-" + (mid2 + FormatIPv4(b) + post))
         == Success(IPRange(V4(a), V4(b)))
  {
    PaddedAddress(pre, a, mid1);
    PaddedAddress(mid2, b, post);
    DashSides(pre + FormatIPv4(a) + mid1, mid2 + FormatIPv4(b) + post);
  }

  /** Without a slash, a text with a dash is the range from `a` to `b`
      exactly when it is `a` printed, a dash and `b` printed, with white
      space allowed at either end and next to the dash. */
  lemma DashRangeExact(s: string, a: Octets, b: Octets)
    requires '/' !in s && '-' in s
    ensures ParseIPRange(s) == Success(IPRange(V4(a), V4(b))) <==> DashForm(s, a, b)
  {
    if ParseIPRange(s) == Success(IPRange(V4(a), V4(b))) {
      DashRangeSides(s, a, b);
    }
    if DashForm(s, a, b) {
      var pre, mid1, mid2, post :| DashPieces(s, a, b, pre, mid1, mid2, post);
      ParseDashRange(a, b, pre, mid1, mid2, post);
    }
  }

  /** `s` is `a` printed, a dash and `b` printed, with the given white space
      before, after and next to the dash. */
  predicate DashPieces(s: string, a: Octets, b: Octets, pre: string, mid1: string, mid2: string, post: string) {
    && Blank(pre) && Blank(mid1) && Blank(mid2) && Blank(post)
    && s == (pre + FormatIPv4(a) + mid1) + "-" + (mid2 + FormatIPv4(b) + post)
  }

  /** `s` is `a` printed, a dash and `b` printed, with some white space
      allowed at either end and next to the dash. */
  ghost predicate DashForm(s: string, a: Octets, b: Octets) {
    exists pre, mid1, mid2, post :: DashPieces(s, a, b, pre, mid1, mid2, post)
  }

  /** An accepted range text is the two printed addresses around the dash,
      each with the white space trimming removed put back. */
  lemma DashRangeSides(s: string, a: Octets, b: Octets)
    requires '/' !in s && '-' in s
    requires ParseIPRange(s) == Success(IPRange(V4(a), V4(b)))
    ensures DashForm(s, a, b)
  {
    var parts := Split(s, '-');
    assert ParseRange(s) == Success(IPRange(V4(a), V4(b)));
    assert |parts| == 2;
    var l, r := parts[0], parts[1];
    assert TrimSpace(l) == FormatIPv4(a) && TrimSpace(r) == FormatIPv4(b);
    TwoPieces(s, '-');
    var pre, mid1 := Padding(l);
    var mid2, post := Padding(r);
    assert DashPieces(s, a, b, pre, mid1, mid2, post);
  }

  /** A text that splits into two pieces is the first piece, the separator and the second. */
  lemma TwoPieces(s: string, sep: char)
    requires |Split(s, sep)| == 2
    ensures s == Split(s, sep)[0] + [sep] + Split(s, sep)[1]
  {
    var parts := Split(s, sep);
    JoinSplit(s, sep);
    assert parts[1..] == [parts[1]];
  }

  /** A printed address, a slash and a prefix length up to 32 are the block
      the address lies in. */
  lemma ParseCidrBlock(a: Octets, n: PrefixLen)
    ensures ParseIPRange(FormatIPv4(a) + "/" + Decimal(n)) == Success(CidrBlock(a, n))
  {
    var s := FormatIPv4(a) + "/" + Decimal(n);
    assert s[|FormatIPv4(a)|] == '/';
    ValueOfDecimal(n);
    CidrTextExact(s, a, n);
  }

  /** The CIDR text parse accepts exactly a printed address, a slash and a
      nonempty run of decimal digits (leading zeros allowed) whose value is
      the prefix length. */
  lemma CidrTextExact(s: string, a: Octets, n: PrefixLen)
    ensures ParseCIDRText(s) == Some((a, n)) <==>
      exists p :: |p| > 0 && AllDigits(p) && Value(p) == n && s == FormatIPv4(a) + "/" + p
  {
    if ParseCIDRText(s) == Some((a, n)) {
      var (addr, p) := Cut(s, '/').value;
      ParseIPv4Exact(addr, a);
      assert s == FormatIPv4(a) + "/" + p;
    }
    if exists p :: |p| > 0 && AllDigits(p) && Value(p) == n && s == FormatIPv4(a) + "/" + p {
      var p :| |p| > 0 && AllDigits(p) && Value(p) == n && s == FormatIPv4(a) + "/" + p;
      NoSlashOrDash(a);
      assert s == FormatIPv4(a) + ['/'] + p;
      CutAt(FormatIPv4(a), p, '/');
      ParseFormatIPv4(a);
    }
  }

  /** A text with a slash whose first slash does not follow a printed
      address is an invalid CIDR block. */
  lemma MalformedCidrAddress(s: string)
    requires '/' in s
    requires forall a :: !HasPrefix(s, FormatIPv4(a) + "/")
    ensures ParseIPRange(s) == Failure(InvalidCIDR)
  {
    if ParseCIDRText(s).Some? {
      var (a, n) := ParseCIDRText(s).value;
      CidrTextExact(s, a, n);
      assert false;
    }
  }

  /** A prefix length above 32 makes the text an invalid CIDR block. */
  lemma PrefixTooLong(a: Octets, n: nat)
    requires n > 32
    ensures ParseIPRange(FormatIPv4(a) + "/" + Decimal(n)) == Failure(InvalidCIDR)
  {
    var s := FormatIPv4(a) + "/" + Decimal(n);
    NoSlashOrDash(a);
    assert s[|FormatIPv4(a)|] == '/';
    assert s == FormatIPv4(a) + ['/'] + Decimal(n);
    CutAt(FormatIPv4(a), Decimal(n), '/');
    ValueOfDecimal(n);
  }

  /** Without a slash, more than one dash is an invalid range. */
  lemma ManyDashes(s: string)
    requires '/' !in s && Count(s, '-') >= 2
    ensures ParseIPRange(s) == Failure(InvalidRange)
  {
  }

  /** The last-octet shorthand `a.b.c.d-k` is an invalid range: the part after
      the dash must be a whole address. */
  lemma ShorthandRangeRejected(a: Octets, k: nat)
    ensures ParseIPRange(FormatIPv4(a) + "-" + Decimal(k)) == Failure(InvalidRange)
  {
    var d := Decimal(k);
    NumeralIsNoAddress(k);
    PaddedAddress("", a, "");
    assert "" + FormatIPv4(a) + "" == FormatIPv4(a);
    DashSides(FormatIPv4(a), d);
  }

  /** A bare decimal numeral has no dots, so it is not an address. */
  lemma NumeralIsNoAddress(k: nat)
    ensures var d := Decimal(k);
      '-' !in d && '/' !in d && ParseIP(TrimSpace(d)).None?
  {
    DigitsOnly(Decimal(k));
    DecimalHasNoDot(k);
  }

  /** A string of digits has no dash, slash or white space in it, and has
      one piece when split on dots exactly when it has no dot. */
  lemma DigitsOnly(d: string)
    requires |d| > 0 && AllDigits(d)
    ensures '-' !in d && '/' !in d && TrimSpace(d) == d
    ensures '.' !in d ==> ParseIP(d).None?
  {
    assert !IsSpace(d[0]) && !IsSpace(d[|d| - 1]);
    assert TrimLeft(d) == d;
    forall i | 0 <= i < |d|
      ensures d[i] != '-' && d[i] != '/'
    {
      assert IsDigit(d[i]);
    }
    if '.' !in d {
      assert |Split(d, '.')| == 1;
    }
  }

  /** Without a slash or a dash, the text is a range of one address exactly
      when it is that address printed. */
  lemma SingleAddressExact(s: string, a: Octets)
    requires '/' !in s && '-' !in s
    ensures ParseIPRange(s) == Success(IPRange(V4(a), V4(a))) <==> s == FormatIPv4(a)
  {
    if s == FormatIPv4(a) {
      ParseSingleAddress(a);
    }
  }

  /** Only digits and dots make up an address text. */
  lemma AddressChars(s: string)
    ensures ParseIP(s).Some? ==> forall k :: 0 <= k < |s| ==> IsDigit(s[k]) || s[k] == '.'
  {
    if ParseIP(s).Some? {
      FormatIPv4Chars(ParseIP(s).value.octets);
    }
  }

  /** Without a slash or a dash, a text holding a character that is neither a
      digit nor a dot is rejected as an invalid address. */
  lemma StrayCharacterRejected(s: string, i: nat)
    requires '/' !in s && '-' !in s
    requires i < |s| && !IsDigit(s[i]) && s[i] != '.'
    ensures ParseIPRange(s) == Failure(InvalidIPAddress)
  {
    AddressChars(s);
  }

  /** Two printed addresses joined by a dash parse to the range between them. */
  lemma PlainDashRange(a: Octets, b: Octets)
    ensures ParseIPRange(FormatIPv4(a) + "-" + FormatIPv4(b)) == Success(IPRange(V4(a), V4(b)))
  {
    var x, y := FormatIPv4(a), FormatIPv4(b);
    assert ("" + x + "") + "-" + ("" + y + "") == x + "-" + y;
    ParseDashRange(a, b, "", "", "", "");
  }
}
