/**
 * The per-host logic of scanner/scanner.go: the vendor table lookup, the
 * search for a MAC address in `arp` output, the rule that fills in a Host
 * record from the probe outcomes, and the loop that collects the records of
 * a scan and counts the live hosts.
 */
module Scanner {
  import opened Wrappers
  import opened GoStrings
  import opened Network

  // ---------------------------------------------------------------------
  // Vendor lookup

  /** The vendor table of getVendorFromMAC: colon-joined, upper-case OUI
      prefixes of a MAC address and the vendor each one belongs to. */
  const Vendors: map<string, string> := map[
    "00:50:56" := "VMware",
    "08:00:27" := "Oracle VirtualBox",
    "52:54:00" := "QEMU/KVM",
    "B8:27:EB" := "Raspberry Pi Foundation",
    "DC:A6:32" := "Raspberry Pi Foundation",
    "E4:5F:01" := "Raspberry Pi Foundation",
    "00:16:3E" := "Xen",
    "00:1C:42" := "Parallels",
    "AC:DE:48" := "Apple",
    "F8:FF:C2" := "Apple",
    "28:CD:C1" := "Apple",
    "3C:07:54" := "Apple"
  ]

  /** The answer for a MAC address the table does not know. */
  const Unknown: string := "Unknown"

  /** A character that separates the octets of a MAC address. */
  predicate Separator(c: char) {
    c == ':' || c == '-'
  }

  /** A character the table writes in an OUI: a digit or an upper-case hex letter. */
  predicate KeyDigit(c: char) {
    '0' <= c <= '9' || 'A' <= c <= 'F'
  }

  /** An OUI as the table writes it: three pairs of digits joined by colons. */
  predicate TableKey(k: string) {
    && |k| == 8 && k[2] == ':' && k[5] == ':'
    && KeyDigit(k[0]) && KeyDigit(k[1]) && KeyDigit(k[3])
    && KeyDigit(k[4]) && KeyDigit(k[6]) && KeyDigit(k[7])
  }

  /** Every key of the table is written the same way. */
  lemma VendorKeysShape()
    ensures forall k :: k in Vendors ==> TableKey(k)
  {
  }

  /** No vendor in the table is the empty string. */
  lemma VendorNamesNonEmpty()
    ensures forall k :: k in Vendors ==> Vendors[k] != ""
  {
  }

  /** The range loop of getVendorFromMAC over the table, in one iteration
      order: the vendor of the first key that begins `mac`. */
  function VendorScan(order: seq<string>, mac: string): (v: string)
    requires forall k :: k in order ==> k in Vendors
    ensures v == Unknown || v in Vendors.Values
  {
    if |order| == 0 then Unknown
    else if HasPrefix(mac, order[0]) then Vendors[order[0]]
    else VendorScan(order[1..], mac)
  }

  /** getVendorFromMAC as written. `order` is the order in which Go's map
      iteration visits the table's keys (each key once). */
  function GetVendorFromMAC(mac: string, order: seq<string>): (v: string)
    requires forall k :: k in order <==> k in Vendors
    ensures v == Unknown || v in Vendors.Values
  {
    if |mac| < 8 then Unknown else VendorScan(order, mac)
  }

  /** The vendor whose key is the first eight characters of `mac`. */
  function VendorOf(mac: string): (v: string)
    ensures v == Unknown || v in Vendors.Values
    ensures |mac| < 8 ==> v == Unknown
  {
    if |mac| >= 8 && mac[..8] in Vendors then Vendors[mac[..8]] else Unknown
  }

  /** Since every key has eight characters, a key begins `mac` exactly when
      it is the first eight characters of `mac`; so the scan finds that key
      whatever order it visits the keys in. */
  lemma {:induction false} VendorScanFinds(order: seq<string>, mac: string)
    requires forall k :: k in order ==> k in Vendors
    ensures VendorScan(order, mac) ==
      (if |mac| >= 8 && mac[..8] in order then Vendors[mac[..8]] else Unknown)
  {
    if |order| > 0 {
      VendorKeysShape();
      assert order[0] in order;
      assert |order[0]| == 8;
      VendorScanFinds(order[1..], mac);
      if |mac| >= 8 && mac[..8] in order && mac[..8] != order[0] {
        assert mac[..8] in order[1..];
      }
    }
  }

  /** The lookup does not depend on the map's iteration order: it always
      answers the vendor of the first eight characters, and "Unknown" for a
      string shorter than eight characters or a prefix not in the table. */
  lemma VendorAnyOrder(mac: string, order: seq<string>)
    requires forall k :: k in order <==> k in Vendors
    ensures GetVendorFromMAC(mac, order) == VendorOf(mac)
    ensures |mac| < 8 ==> GetVendorFromMAC(mac, order) == Unknown
  {
    VendorScanFinds(order, mac);
  }

  /** As written, a MAC address with a dash after its first octet, the form
      Windows' `arp -a` prints, never finds its vendor. */
  lemma HyphenatedUnknown(mac: string, order: seq<string>)
    requires forall k :: k in order <==> k in Vendors
    requires |mac| >= 3 && mac[2] == '-'
    ensures GetVendorFromMAC(mac, order) == Unknown
  {
    VendorAnyOrder(mac, order);
    VendorKeysShape();
    if |mac| >= 8 {
      assert mac[..8][2] == '-';
    }
  }

  /** As written, a lower-case letter in the first eight characters means
      the vendor is never found. */
  lemma LowerCaseUnknown(mac: string, order: seq<string>, i: nat)
    requires forall k :: k in order <==> k in Vendors
    requires i < 8 && i < |mac| && 'a' <= mac[i] <= 'z'
    ensures GetVendorFromMAC(mac, order) == Unknown
  {
    VendorAnyOrder(mac, order);
    VendorKeysShape();
    if |mac| >= 8 {
      assert mac[..8][i] == mac[i];
    }
  }

  /** The OUI getVendorFromMAC computes from the first eight characters:
      colons and dashes removed, letters upper-cased. */
  function OUI(mac: string): (oui: string)
    requires |mac| >= 8
    ensures |oui| <= 8
  {
    ToUpper(RemoveAll(RemoveAll(mac[..8], ':'), '-'))
  }

  /** Six OUI digits written the way the table writes them. */
  function Colons(oui: string): (k: string)
    ensures |oui| == 6 ==> |k| == 8 && k[2] == ':' && k[5] == ':'
  {
    if |oui| == 6 then oui[..2] + ":" + oui[2..4] + ":" + oui[4..] else oui
  }

  /** getVendorFromMAC as evidently intended: the normalised OUI, not the raw
      text, is looked up, so separators and letter case do not matter. */
  function LookupVendor(mac: string): (v: string)
    ensures v == Unknown || v in Vendors.Values
    ensures v != ""
  {
    VendorNamesNonEmpty();
    if |mac| < 8 then Unknown
    else
      var key := Colons(OUI(mac));
      if key in Vendors then Vendors[key] else Unknown
  }

  /** The first eight characters of a MAC address: two digits, a separator,
      two digits, a separator, two digits. */
  predicate OUIShaped(mac: string) {
    && |mac| >= 8 && Separator(mac[2]) && Separator(mac[5])
    && !Separator(mac[0]) && !Separator(mac[1]) && !Separator(mac[3])
    && !Separator(mac[4]) && !Separator(mac[6]) && !Separator(mac[7])
  }

  /** The six digits of a shaped OUI, upper-cased. */
  function Digits(mac: string): (d: string)
    requires |mac| >= 8
    ensures |d| == 6
  {
    [UpperChar(mac[0]), UpperChar(mac[1]), UpperChar(mac[3]),
     UpperChar(mac[4]), UpperChar(mac[6]), UpperChar(mac[7])]
  }

  /** `s` with its colons and dashes taken out, in one pass. */
  function NoSeparators(s: string): (t: string)
    decreases |s|
  {
    if |s| == 0 then "" else (if Separator(s[0]) then "" else [s[0]]) + NoSeparators(s[1..])
  }

  /** Removing the colons and then the dashes removes both in one pass. */
  lemma {:induction false} RemoveBoth(s: string)
    ensures RemoveAll(RemoveAll(s, ':'), '-') == NoSeparators(s)
    decreases |s|
  {
    if |s| > 0 {
      RemoveBoth(s[1..]);
      var h := if s[0] == ':' then "" else [s[0]];
      assert RemoveAll(s, ':') == h + RemoveAll(s[1..], ':');
      RemoveAllConcat(h, RemoveAll(s[1..], ':'), '-');
      assert RemoveAll(h, '-') == (if Separator(s[0]) then "" else [s[0]]) by {
        if |h| == 1 {
          assert h[1..] == "";
        }
      }
    }
  }

  /** The one-pass removal of a concatenation. */
  lemma {:induction false} NoSeparatorsConcat(a: string, b: string)
    ensures NoSeparators(a + b) == NoSeparators(a) + NoSeparators(b)
    decreases |a|
  {
    if |a| > 0 {
      assert (a + b)[1..] == a[1..] + b;
      NoSeparatorsConcat(a[1..], b);
    } else {
      assert a + b == b;
    }
  }

  /** Two characters that are not separators are kept. */
  lemma NoSeparatorsPair(p: string)
    requires |p| == 2 && !Separator(p[0]) && !Separator(p[1])
    ensures NoSeparators(p) == p
  {
    assert NoSeparators(p[1..][1..]) == "";
    assert NoSeparators(p[1..]) == [p[1]];
    assert NoSeparators(p) == [p[0]] + [p[1]];
  }

  /** A separator between two texts is dropped. */
  lemma DropSeparator(x: string, c: char, y: string)
    requires Separator(c)
    ensures NoSeparators(x + [c] + y) == NoSeparators(x) + NoSeparators(y)
  {
    NoSeparatorsConcat(x + [c], y);
    NoSeparatorsConcat(x, [c]);
    assert NoSeparators([c]) == "" + NoSeparators([c][1..]);
    assert [c][1..] == "";
  }

  /** Upper-casing the six digits of a shaped OUI. */
  lemma UpperDigits(mac: string, d: string)
    requires |mac| >= 8 && |d| == 6
    requires d[0] == mac[0] && d[1] == mac[1] && d[2] == mac[3]
    requires d[3] == mac[4] && d[4] == mac[6] && d[5] == mac[7]
    ensures ToUpper(d) == Digits(mac)
  {
  }

  /** Taking the two separators out of a shaped OUI leaves its three pairs of digits. */
  lemma StripShaped(m: string)
    requires |m| == 8 && OUIShaped(m)
    ensures NoSeparators(m) == m[..2] + m[3..5] + m[6..]
  {
    var a, b, c := m[..2], m[3..5], m[6..];
    assert m == (a + [m[2]] + b) + [m[5]] + c;
    DropSeparator(a + [m[2]] + b, m[5], c);
    DropSeparator(a, m[2], b);
    NoSeparatorsPair(a);
    NoSeparatorsPair(b);
    NoSeparatorsPair(c);
  }

  /** The OUI of a shaped MAC address is its six digits, upper-cased. */
  lemma OUIOfShaped(mac: string)
    requires OUIShaped(mac)
    ensures OUI(mac) == Digits(mac)
  {
    var m := mac[..8];
    assert OUIShaped(m);
    StripShaped(m);
    RemoveBoth(m);
    UpperDigits(mac, m[..2] + m[3..5] + m[6..]);
  }

  /** The six digits of an OUI in the table's spelling, joined by colons,
      give back its first eight characters. */
  lemma ColonsOfDigits(mac: string)
    requires OUIShaped(mac) && mac[2] == ':' && mac[5] == ':'
    requires forall i :: 0 <= i < 8 ==> !('a' <= mac[i] <= 'z')
    ensures Colons(Digits(mac)) == mac[..8]
  {
    var d := Digits(mac);
    assert !('a' <= mac[0] <= 'z') && !('a' <= mac[1] <= 'z') && !('a' <= mac[3] <= 'z');
    assert !('a' <= mac[4] <= 'z') && !('a' <= mac[6] <= 'z') && !('a' <= mac[7] <= 'z');
    assert d == [mac[0], mac[1], mac[3], mac[4], mac[6], mac[7]];
    assert Colons(d) == [d[0], d[1], ':', d[2], d[3], ':', d[4], d[5]];
  }

  /** The intended lookup does not care which separator a MAC address uses
      or how its letters are cased. */
  lemma LookupIgnoresSeparatorsAndCase(mac1: string, mac2: string)
    requires OUIShaped(mac1) && OUIShaped(mac2)
    requires Digits(mac1) == Digits(mac2)
    ensures LookupVendor(mac1) == LookupVendor(mac2)
  {
    OUIOfShaped(mac1);
    OUIOfShaped(mac2);
  }

  /** On the table's own spelling (colons, upper case) the intended lookup
      answers what getVendorFromMAC answers. */
  lemma LookupAgreesOnTableSpelling(mac: string, order: seq<string>)
    requires forall k :: k in order <==> k in Vendors
    requires OUIShaped(mac) && mac[2] == ':' && mac[5] == ':'
    requires forall i :: 0 <= i < 8 ==> !('a' <= mac[i] <= 'z')
    ensures LookupVendor(mac) == GetVendorFromMAC(mac, order)
  {
    OUIOfShaped(mac);
    ColonsOfDigits(mac);
    VendorAnyOrder(mac, order);
  }

  /** A MAC address printed with dashes, whose colon spelling the table
      knows, is "Unknown" as written but finds the vendor as intended. */
  lemma HyphenatedFinding(colon: string, dashed: string, order: seq<string>)
    requires forall k :: k in order <==> k in Vendors
    requires OUIShaped(colon) && colon[2] == ':' && colon[5] == ':'
    requires forall i :: 0 <= i < 8 ==> !('a' <= colon[i] <= 'z')
    requires OUIShaped(dashed) && dashed[2] == '-' && Digits(dashed) == Digits(colon)
    ensures GetVendorFromMAC(dashed, order) == Unknown
    ensures LookupVendor(dashed) == GetVendorFromMAC(colon, order) == VendorOf(colon)
  {
    HyphenatedUnknown(dashed, order);
    LookupIgnoresSeparatorsAndCase(dashed, colon);
    LookupAgreesOnTableSpelling(colon, order);
    VendorAnyOrder(colon, order);
  }

  // ---------------------------------------------------------------------
  // The MAC address in `arp` output

  /** A field the ARP parse takes for a MAC address: five colons or five dashes. */
  predicate MACShaped(field: string) {
    Count(field, ':') == 5 || Count(field, '-') == 5
  }

  /** The MAC-shaped fields of a list, in order. */
  function MACFields(fields: seq<string>): (r: seq<string>)
    ensures |r| <= |fields|
    ensures forall i :: 0 <= i < |r| ==> MACShaped(r[i]) && r[i] in fields
    ensures forall f :: f in fields && MACShaped(f) ==> f in r
  {
    if |fields| == 0 then []
    else (if MACShaped(fields[0]) then [fields[0]] else []) + MACFields(fields[1..])
  }

  /** Picking the MAC-shaped fields keeps their order: the fields picked from
      two lists in a row are those picked from the first, then those picked
      from the second. */
  lemma {:induction false} MACFieldsConcat(a: seq<string>, b: seq<string>)
    ensures MACFields(a + b) == MACFields(a) + MACFields(b)
    decreases |a|
  {
    if |a| > 0 {
      assert (a + b)[1..] == a[1..] + b;
      MACFieldsConcat(a[1..], b);
    } else {
      assert a + b == b;
    }
  }

  /** One field is picked exactly when it is MAC-shaped. */
  lemma MACFieldsSingle(f: string)
    ensures MACFields([f]) == (if MACShaped(f) then [f] else [])
  {
    assert [f][1..] == [];
  }

  /** Every MAC-shaped field of the lines that mention `ip`, line by line and
      field by field. */
  function Candidates(lines: seq<string>, ip: string): (r: seq<string>)
    ensures forall i :: 0 <= i < |r| ==> MACShaped(r[i])
  {
    if |lines| == 0 then []
    else (if Contains(lines[0], ip) then MACFields(Fields(lines[0])) else []) + Candidates(lines[1..], ip)
  }

  /** The inner loop of the ARP parse: the first MAC-shaped field. */
  function FirstMACField(fields: seq<string>): (r: Option<string>)
    ensures r.None? <==> MACFields(fields) == []
    ensures r.Some? ==> r.value == MACFields(fields)[0]
  {
    if |fields| == 0 then None
    else if MACShaped(fields[0]) then Some(fields[0])
    else FirstMACField(fields[1..])
  }

  /** The outer loop of the ARP parse: the upper-cased first MAC-shaped field
      of a line that mentions `ip`, or "" when there is none; a line that
      mentions `ip` without such a field does not stop the search. */
  function MACInLines(lines: seq<string>, ip: string): (mac: string)
    ensures mac == "" || MACShaped(mac)
  {
    if |lines| == 0 then ""
    else if Contains(lines[0], ip) && FirstMACField(Fields(lines[0])).Some? then
      var field := FirstMACField(Fields(lines[0])).value;
      CountToUpper(field, ':');
      CountToUpper(field, '-');
      ToUpper(field)
    else MACInLines(lines[1..], ip)
  }

  /** The ARP parse answers the first candidate, upper-cased, or "" when
      there is no candidate. */
  lemma {:induction false} MACInLinesFirst(lines: seq<string>, ip: string)
    ensures var c := Candidates(lines, ip);
      MACInLines(lines, ip) == (if c == [] then "" else ToUpper(c[0]))
  {
    if |lines| > 0 {
      MACInLinesFirst(lines[1..], ip);
    }
  }

  /** The text-parsing half of getMACAddress: the MAC address `arp` printed
      for `ip`, or "" when it printed none. */
  function ParseARPOutput(output: string, ip: string): (mac: string)
    ensures var c := Candidates(Split(output, '\n'), ip);
      && (mac == "" <==> c == [])
      && (mac != "" ==> mac == ToUpper(c[0]) && MACShaped(mac))
  {
    var lines := Split(output, '\n');
    MACInLinesFirst(lines, ip);
    MACInLines(lines, ip)
  }

  /** getMACAddress: None stands for an `arp` command that failed or an
      operating system the scanner does not support. */
  function GetMACAddress(arp: Option<string>, ip: string): (mac: string)
    ensures arp.None? ==> mac == ""
    ensures mac == "" || MACShaped(mac)
  {
    match arp
    case None => ""
    case Some(output) => ParseARPOutput(output, ip)
  }

  // ---------------------------------------------------------------------
  // One host

  /** Host. Latency is a duration in the clock's units. */
  datatype Host = Host(
    IP: IP, Hostname: string, MAC: string, Vendor: string,
    Latency: nat, IsAlive: bool, Error: Option<string>)

  /** What the outside world answered for one address: the error of the
      ping (None when it answered), the time the ping took, the names a
      reverse DNS lookup returned or its error, and the text `arp` printed
      (None when it could not be run). */
  datatype Outcome = Outcome(
    pingError: Option<string>, latency: nat,
    names: Result<seq<string>, string>, arp: Option<string>)

  /** The host name recorded from a reverse lookup: the first name without
      one trailing dot, or "" when the lookup failed or found no name. */
  function HostnameOf(names: Result<seq<string>, string>): (h: string)
    ensures names.Failure? || |names.value| == 0 ==> h == ""
    ensures names.Success? && |names.value| > 0 ==>
      var n := names.value[0];
      if |n| > 0 && n[|n| - 1] == '.' then h + "." == n else h == n
  {
    if names.Success? && |names.value| > 0 then TrimSuffix(names.value[0], ".") else ""
  }

  /** scanHost: the host is alive exactly when the ping reported no error;
      only a live host gets a name, a MAC address and a vendor. */
  method ScanHost(ip: IP, o: Outcome) returns (host: Host)
    ensures host.IP == ip && host.Latency == o.latency && host.Error == o.pingError
    ensures host.IsAlive <==> o.pingError.None?
    ensures !host.IsAlive ==> host.Hostname == "" && host.MAC == "" && host.Vendor == ""
    ensures host.IsAlive ==> host.Hostname == HostnameOf(o.names)
    ensures host.IsAlive ==> host.MAC == GetMACAddress(o.arp, IPString(ip))
    ensures host.Vendor != "" <==> host.MAC != ""
    ensures host.MAC != "" ==> host.Vendor == VendorOf(host.MAC)
    ensures host.MAC != "" ==> forall order :: (forall k :: k in order <==> k in Vendors) ==>
      host.Vendor == GetVendorFromMAC(host.MAC, order)
  {
    host := Host(ip, "", "", "", 0, false, None);
    var isAlive := o.pingError.None?;
    host := host.(Latency := o.latency);
    host := host.(IsAlive := isAlive, Error := o.pingError);
    if isAlive {
      if o.names.Success? && |o.names.value| > 0 {
        host := host.(Hostname := TrimSuffix(o.names.value[0], "."));
      }
      var mac := GetMACAddress(o.arp, IPString(ip));
      if mac != "" {
        VendorNamesNonEmpty();
        host := host.(MAC := mac, Vendor := VendorOf(mac));
        forall order | forall k :: k in order <==> k in Vendors
          ensures host.Vendor == GetVendorFromMAC(host.MAC, order)
        {
          VendorAnyOrder(mac, order);
        }
      }
    }
  }

  // ---------------------------------------------------------------------
  // Collecting the results of a scan

  /** The number of live hosts in a list. */
  function CountAlive(hosts: seq<Host>): (n: nat)
    ensures n <= |hosts|
  {
    if |hosts| == 0 then 0 else (if hosts[0].IsAlive then 1 else 0) + CountAlive(hosts[1..])
  }

  /** Appending a host adds one to the count exactly when it is alive. */
  lemma {:induction false} CountAliveAppend(hosts: seq<Host>, h: Host)
    ensures CountAlive(hosts + [h]) == CountAlive(hosts) + (if h.IsAlive then 1 else 0)
  {
    if |hosts| > 0 {
      assert (hosts + [h])[1..] == hosts[1..] + [h];
      CountAliveAppend(hosts[1..], h);
    }
  }

  /** The count does not depend on the order the hosts arrived in. */
  lemma {:induction false} CountAlivePermutation(a: seq<Host>, b: seq<Host>)
    requires multiset(a) == multiset(b)
    ensures CountAlive(a) == CountAlive(b)
    decreases |a|
  {
    if |a| > 0 {
      var h := a[0];
      assert h in multiset(b);
      var i :| 0 <= i < |b| && b[i] == h;
      var rest := b[..i] + b[i + 1..];
      MultisetWithout(a, b, i);
      CountAlivePermutation(a[1..], rest);
      CountAliveSplit(b[..i], h, b[i + 1..]);
      assert b[..i] + [h] + b[i + 1..] == b;
    } else {
      assert |b| == |multiset(b)|;
    }
  }

  /** Taking the first element of `a` out of `a` and out of `b` keeps the two equal as multisets. */
  lemma MultisetWithout(a: seq<Host>, b: seq<Host>, i: nat)
    requires multiset(a) == multiset(b) && |a| > 0 && i < |b| && b[i] == a[0]
    ensures multiset(a[1..]) == multiset(b[..i] + b[i + 1..])
  {
    var h := multiset{a[0]};
    assert a == [a[0]] + a[1..];
    assert multiset(a[1..]) == multiset(a) - h;
    assert b == b[..i] + [b[i]] + b[i + 1..];
    assert multiset(b) == multiset(b[..i]) + h + multiset(b[i + 1..]);
    assert multiset(b[..i] + b[i + 1..]) == multiset(b) - h;
  }

  /** Taking one host out of the middle of a list. */
  lemma {:induction false} CountAliveSplit(x: seq<Host>, h: Host, y: seq<Host>)
    ensures CountAlive(x + [h] + y) == CountAlive(x + y) + (if h.IsAlive then 1 else 0)
    decreases |x|
  {
    if |x| == 0 {
      assert x + [h] + y == [h] + y;
      assert ([h] + y)[1..] == y;
      assert x + y == y;
    } else {
      assert (x + [h] + y)[1..] == x[1..] + [h] + y;
      assert (x + y)[1..] == x[1..] + y;
      CountAliveSplit(x[1..], h, y);
    }
  }

  /** ScanResult, without the wall-clock ScanTime. */
  class ScanResult {
    var NetworkRange: string
    var TotalHosts: int
    var AliveHosts: int
    var Hosts: seq<Host>

    /** AliveHosts counts the live hosts collected so far. */
    predicate Valid()
      reads this
    {
      AliveHosts == CountAlive(Hosts)
    }

    /** The empty result a scan of `total` addresses starts from. */
    constructor(total: nat)
      ensures Valid()
      ensures NetworkRange == "" && TotalHosts == total && AliveHosts == 0 && Hosts == []
    {
      NetworkRange := "";
      TotalHosts := total;
      AliveHosts := 0;
      Hosts := [];
    }

    /** One step of the collection loop: append the host and count it if it
        is alive. */
    method Collect(host: Host)
      requires Valid()
      modifies this
      ensures Valid()
      ensures Hosts == old(Hosts) + [host]
      ensures AliveHosts == old(AliveHosts) + (if host.IsAlive then 1 else 0)
      ensures NetworkRange == old(NetworkRange) && TotalHosts == old(TotalHosts)
    {
      CountAliveAppend(Hosts, host);
      Hosts := Hosts + [host];
      if host.IsAlive {
        AliveHosts := AliveHosts + 1;
      }
    }
  }

  /** The addresses the records of a list are for. */
  function AddressesOf(hosts: seq<Host>): (ips: seq<IP>)
    ensures |ips| == |hosts|
    ensures forall i :: 0 <= i < |hosts| ==> ips[i] == hosts[i].IP
  {
    seq(|hosts|, i requires 0 <= i < |hosts| => hosts[i].IP)
  }

  /** The sequential part of ScanNetwork: the workers deliver one record per
      input address, in some order (`results`), and the loop collects them
      in that order. */
  method ScanNetwork(ips: seq<IP>, results: seq<Host>) returns (result: ScanResult)
    requires multiset(AddressesOf(results)) == multiset(ips)
    ensures fresh(result) && result.Valid()
    ensures result.TotalHosts == |ips| == |result.Hosts|
    ensures result.Hosts == results
    ensures result.AliveHosts == CountAlive(results)
    ensures multiset(AddressesOf(result.Hosts)) == multiset(ips)
  {
    result := new ScanResult(|ips|);
    assert |AddressesOf(results)| == |multiset(ips)|;
    for i := 0 to |results|
      invariant result.Valid()
      invariant result.TotalHosts == |ips|
      invariant result.Hosts == results[..i]
    {
      result.Collect(results[i]);
    }
    assert results[..|results|] == results;
  }
}
