# hostscanner core, modelled in Dafny

hostscanner finds live hosts on an IPv4 network. This project models two
pieces of its sequential logic and proves properties about them.

- **The range expander** (`network/network.go`). `ParseIPRange` accepts
  three forms: a CIDR block (`192.168.1.0/24`), a dash range
  (`192.168.1.1-192.168.1.5`) or a single address. It returns an
  `IPRange` holding a start and an end address, or one of three errors.
  `GenerateIPs` lists every address from the start to the end, counting
  with a `uint32`.
- **The per-host logic of the scanner** (`scanner/scanner.go`). This
  covers:
  - the vendor lookup by OUI prefix, `getVendorFromMAC`;
  - the search for a MAC address in `arp` output, `getMACAddress`;
  - the rule by which `scanHost` fills in a `Host` record;
  - the loop in `ScanNetwork` that collects the records and counts the
    live hosts.

Files:

- `wrappers.dfy` holds `Option` and `Result`.
- `strings.dfy` (module `GoStrings`) holds the `strings` functions the core
  calls: `Split`, `Count`, `Fields`, `TrimSpace`, `TrimSuffix`,
  `ToUpper`, `Contains`, `HasPrefix` and `ReplaceAll` with an empty
  replacement (`RemoveAll`). It also holds `Cut`, which splits a CIDR text
  at its first slash inside the model of `net.ParseCIDR`.
- `bits.dfy` (module `Bits`) holds byte `&`, `|` and `^`.
- `ipv4.dfy` (module `IPv4`) holds:
  - the octets and their big-endian 32-bit value;
  - the dot-decimal text of an address;
  - the prefix masks.
- `network.dfy` (module `Network`) holds the expander.
- `examples_network.dfy` (module `NetworkExamples`) holds the expander's
  test inputs.
- `scanner.dfy` (module `Scanner`) holds the scanner logic.

The library parsers `net.ParseIP` and `net.ParseCIDR` are modelled for IPv4
text only:

- An address is four dot-separated decimal fields, each 0 to 255, with no
  leading zeros.
- A CIDR prefix is the decimal digits after the first `/`, denoting at most
  32 (leading zeros allowed).

An address without a 4-byte form (IPv6) is the `NonV4` case of `IP`.
Hand-built ranges can hold it, but the model's parser never produces it.

The probe outcomes become inputs of the model. Each is a field of
`Outcome`:

- the ping error;
- the ping's latency;
- the names from the reverse DNS lookup, or its error;
- the text `arp` printed, or `None` when it could not be run.

`pingHost` reports "alive" exactly when it returns no error. The model
therefore derives `IsAlive` from the ping error.

Three behaviours of the code differ from what a reader might expect. The
model follows the code in each:

- **Vendor lookup.** One would expect the lookup to ignore letter case and
  to treat `:` and `-` alike; `getVendorFromMAC` even computes such a
  normalised prefix. But it compares the raw MAC text with the table's
  upper-case, colon-joined keys, so `scanHost` reports "Unknown" for any
  other spelling (see Findings).
- **Empty MAC address.** One would expect the vendor "Unknown" when no MAC
  address was found. But `scanHost` calls the lookup only for a non-empty
  MAC, so `Vendor` stays empty.
- **ARP output.** A line that mentions the address but has no MAC-shaped
  field does not end the search; later lines are still searched.

## Model

| member | source | states |
|---|---|---|
| IPv4.ToU32 | network/network.go:119-122 | ipToUint32: the big-endian 32-bit value of the four octets, first octet most significant; FromToU32 and ToFromU32 prove it inverse to FromU32, ToU32Injective that it is one-to-one |
| IPv4.FromU32 | network/network.go:125-127 | uint32ToIP: the four octets of a 32-bit value, each the low byte of a shift by 24, 16, 8 and 0; inverse to ToU32 by FromToU32 and ToFromU32 |
| IPv4.FromToU32 | network/network.go:119-127 | converting octets to the 32-bit value and back gives the same octets |
| IPv4.ToFromU32 | network/network.go:119-127 | converting a 32-bit value to octets and back gives the same value; the first octet is the most significant |
| IPv4.ToU32Injective | network/network.go:119-122 | two addresses with the same 32-bit value are the same address |
| IPv4.ParseIPv4 | network/network.go:37 | net.ParseIP on dot-decimal IPv4 text: four fields, each a numeral of 0 to 255 without leading zero; ParseIPv4Exact proves it accepts exactly the printed addresses |
| IPv4.ParseFormatIPv4 | network/network.go:37 | the parser reads a printed address back as that address |
| IPv4.FormatParseIPv4 | network/network.go:37 | an accepted address text is exactly the printed form of what it parsed to (one spelling per address) |
| IPv4.ParseIPv4Exact | network/network.go:37 | the text parses to address o if and only if it is o printed |
| IPv4.ValueOfDecimal | network/network.go:37 | the numeral printed for n reads back as n |
| IPv4.DecimalOfValue | network/network.go:37 | a canonical numeral (no leading zero) is the printed form of its value |
| IPv4.CIDRMask | network/network.go:50 | net.CIDRMask(n, 32): four mask octets; MaskByteHigh proves each is the run of high one bits its share of the prefix asks for, HostCount that the host bits number 2^(32-n) - 1 |
| IPv4.MaskByteHigh | network/network.go:50 | each mask octet is the run of high one bits its share of the prefix asks for |
| IPv4.OctetBlock | network/network.go:56-63 | per octet, the masked octet is at most the address octet, and setting the host bits adds exactly the complement of the mask |
| IPv4.HostCount | network/network.go:50-63 | the complement of a /n mask has the 32-bit value 2^(32-n) - 1 |
| IPv4.ApplyMaskIdempotent | network/network.go:56 | masking twice is masking once |
| Bits.BitOrBound | network/network.go:62 | OR of two bytes is a byte |
| Network.ParseIP | network/network.go:37-40 | an accepted address is IPv4 and the text is its printed form |
| Network.ParseCIDRText | network/network.go:50 | net.ParseCIDR on IPv4 text: the address before the first slash and the prefix after it; CidrTextExact states exactly which texts it accepts and what it returns |
| Network.CidrRange | network/network.go:49-68 | what parseCIDR returns: InvalidCIDR when net.ParseCIDR fails, else the block of the address under the prefix; ParseCIDR computes it, CidrBlockExpansion gives the block's size and ends |
| Network.CidrTextExact | network/network.go:50-53 | the CIDR text parse gives address a and prefix n exactly when the text is a printed, a slash and a nonempty digit run (leading zeros allowed) whose value is n |
| Network.MalformedCidrAddress | network/network.go:50-53 | a text with a slash whose first slash does not follow a printed address gives InvalidCIDR |
| Network.ParseCIDR | network/network.go:49-69 | parseCIDR yields the block: the start is the address AND the mask, the end comes from SetHostBits, and a malformed text gives InvalidCIDR |
| Network.SetHostBits | network/network.go:57-63 | the loop sets every end octet to the start octet OR the complement of the mask octet |
| Network.ParseRange | network/network.go:72-89 | parseRange: every failure is InvalidRange; DashRangeExact states exactly which texts give which range, ManyDashes and ShorthandRangeRejected the rejected forms |
| Network.DashRangeExact | network/network.go:72-89 | without a slash, a text with a dash gives the range from a to b exactly when it is a printed, a dash and b printed, with white space only at the ends and next to the dash |
| Network.ParseIPRange | network/network.go:25-46 | a slash selects CIDR parsing, otherwise a dash selects range parsing, otherwise a single address; the error names the form chosen; both ends of a result are IPv4 |
| Network.PreSizeChecked | network/network.go:108 | the capacity a range needs is the length of its expansion |
| Network.GenerateIPs | network/network.go:93-116 | with the uint32 counter, for a range not ending at 255.255.255.255, the list is the expansion; IPv6 ends give an empty list |
| Network.GenerateIPsInclusive | network/network.go:93-116 | with a wider counter the loop ends for every range and returns the expansion |
| Network.ExpansionInterval | network/network.go:104-113 | the expansion has end - start + 1 addresses, or none if start > end; the k-th has the value start + k; the first is the start, the last is the end; none repeats |
| Network.ExpansionMembership | network/network.go:111-113 | an address is in the expansion if and only if its value lies between the two ends |
| Network.BlockValues | network/network.go:56-63 | the block's end is its start plus the complement of the mask, and the address lies between start and end |
| Network.CidrBlockExpansion | network/network.go:56-63 | a /n block expands to 2^(32-n) addresses, from the network address to the broadcast address, and contains the given address |
| Network.CidrHostBitsIgnored | network/network.go:56 | host bits in the given address do not change the block |
| Network.ParseSingleAddress | network/network.go:37-45 | a printed address yields start = end = that address, and the expansion is exactly that one address |
| Network.SingleAddressExact | network/network.go:37-45 | without slash or dash, the text is a one-address range of a if and only if it is a printed |
| Network.StrayCharacterRejected | network/network_test.go:46-50 | without slash or dash, a character that is neither digit nor dot makes the text an invalid address |
| Network.ParseDashRange | network/network.go:72-89 | two printed addresses around a dash, with any white space beside them, give the range between them |
| Network.PlainDashRange | network/network_test.go:23-33 | two printed addresses joined by a dash give the range between them |
| Network.ParseCidrBlock | network/network.go:27-28 | a printed address, a slash and a prefix of at most 32 give that CIDR block |
| Network.PrefixTooLong | network/network_test.go:52-56 | a prefix above 32 gives InvalidCIDR |
| Network.ManyDashes | network/network.go:73-76 | without a slash, two or more dashes give InvalidRange |
| Network.ShorthandRangeRejected | main.go:244 | the shorthand a.b.c.d-k of the usage text is rejected as InvalidRange |
| Network.NumeralIsNoAddress | network/network.go:78-83 | a bare numeral has no slash or dash and is not an address |
| Network.Counter | network/network.go:111 | after n increments from i, the uint32 counter holds (i + n) mod 2^32 |
| Network.TopNeverExits | network/network.go:111 | with the end at 255.255.255.255, the loop guard holds after every number of steps, and the counter returns to 0 |
| Network.TopAddressParses | network/network.go:37-45 | "255.255.255.255" is a valid range that ends at the top |
| Network.PreSizeWraps | network/network.go:108 | for start > end + 1, the uint32 pre-size is 2^32 - (start - end - 1), which is positive, while the checked size is 0 |
| Network.PreSizeCheckedBound | network/network.go:108 | the checked size is at most 2^32, is 0 exactly for reversed ranges, and agrees with the uint32 size except for the full range |
| Network.ReversedRangeExample | network/network.go:108 | 192.168.1.5-192.168.1.1 reserves 4294967293 slots and expands to nothing |
| NetworkExamples.CidrExample | network/network_test.go:11-21 | 192.168.1.0/24 gives 256 addresses, the first 192.168.1.0, the last 192.168.1.255 |
| NetworkExamples.RangeExample | network/network_test.go:23-33 | 192.168.1.1-192.168.1.5 gives 5 addresses, the first .1, the last .5 |
| NetworkExamples.SingleExample | network/network_test.go:35-44 | 192.168.1.1 gives exactly the one address 192.168.1.1 |
| NetworkExamples.InvalidCidrExample | network/network_test.go:52-56 | 192.168.1.0/40 gives InvalidCIDR |
| NetworkExamples.ShorthandExample | main.go:244 | 192.168.1.1-100 gives InvalidRange |
| NetworkExamples.Block24 | network/network.go:56-63 | the block of 192.168.1.0/24 runs from 192.168.1.0 to 192.168.1.255 |
| NetworkExamples.CidrText | network/network_test.go:13 | the CIDR example's input is the text "192.168.1.0/24" |
| NetworkExamples.RangeText | network/network_test.go:25 | the range example's input is the text "192.168.1.1-192.168.1.5" |
| NetworkExamples.SingleText | network/network_test.go:37 | the single-address example's input is the text "192.168.1.1" |
| NetworkExamples.InvalidCidrText | network/network_test.go:54 | the invalid CIDR example's input is the text "192.168.1.0/40" |
| NetworkExamples.ShorthandText | main.go:244 | the shorthand example's input is the text "192.168.1.1-100" |
| Scanner.VendorKeysShape | scanner/scanner.go:190-203 | every table key is three colon-joined pairs of upper-case hex digits, eight characters long |
| Scanner.VendorScan | scanner/scanner.go:205-211 | the loop answers "Unknown" or a vendor from the table |
| Scanner.GetVendorFromMAC | scanner/scanner.go:179-212 | getVendorFromMAC as written answers "Unknown" or a vendor from the table |
| Scanner.VendorOf | scanner/scanner.go:179-212 | the vendor of the table key equal to the first eight characters, else "Unknown" (also below eight characters); VendorAnyOrder proves it is getVendorFromMAC in every map order |
| Scanner.VendorScanFinds | scanner/scanner.go:205-211 | in any iteration order, the loop finds the key equal to the first eight characters, or answers "Unknown" |
| Scanner.VendorAnyOrder | scanner/scanner.go:180-211 | the answer does not depend on the map's iteration order; fewer than eight characters give "Unknown" |
| Scanner.HyphenatedUnknown | scanner/scanner.go:205-207 | as written, a dash after the first octet always gives "Unknown" |
| Scanner.LowerCaseUnknown | scanner/scanner.go:205-207 | as written, a lower-case letter in the OUI always gives "Unknown" |
| Scanner.LookupVendor | scanner/scanner.go:184-211 | the corrected lookup answers "Unknown" or a table vendor, never the empty string |
| Scanner.OUIOfShaped | scanner/scanner.go:185-187 | the normalised OUI of a MAC address is its six digits, upper-cased |
| Scanner.LookupIgnoresSeparatorsAndCase | scanner/scanner.go:184-211 | the corrected lookup gives the same vendor whatever the separators or letter case |
| Scanner.LookupAgreesOnTableSpelling | scanner/scanner.go:184-211 | on colon-joined upper-case MACs the corrected lookup agrees with the code as written |
| Scanner.HyphenatedFinding | scanner/scanner.go:185-207 | a dashed MAC whose colon form the table knows is "Unknown" as written, but gets the vendor from the corrected lookup |
| Scanner.MACFields | scanner/scanner.go:166-167 | every selected field is a MAC-shaped field of the line, and every MAC-shaped field of the line is selected |
| Scanner.MACFieldsConcat | scanner/scanner.go:166-167 | the fields selected from two lists in a row are those of the first followed by those of the second, so selection keeps the line's order |
| Scanner.MACFieldsSingle | scanner/scanner.go:167 | one field is selected exactly when it has five colons or five dashes |
| Scanner.FirstMACField | scanner/scanner.go:166-170 | the inner loop returns the first MAC-shaped field, or none if there is none |
| Scanner.MACInLines | scanner/scanner.go:162-174 | the line loop of getMACAddress answers "" or a MAC-shaped field, upper-cased; MACInLinesFirst says which one |
| Scanner.MACInLinesFirst | scanner/scanner.go:162-174 | the line loop returns the first candidate upper-cased, or "" when no line mentioning the IP has a MAC-shaped field |
| Scanner.ParseARPOutput | scanner/scanner.go:162-174 | the result is "" if and only if there is no candidate; otherwise it is the first candidate upper-cased, with five colons or five dashes |
| Scanner.GetMACAddress | scanner/scanner.go:144-175 | a failed arp command gives ""; any other result is "" or MAC-shaped |
| Scanner.HostnameOf | scanner/scanner.go:111-113 | the host name is the first DNS name with one trailing dot removed, and "" when the lookup failed or found nothing |
| Scanner.ScanHost | scanner/scanner.go:96-123 | the IP, latency and error are copied; the host is alive exactly when the ping had no error; a dead host has no name, MAC or vendor; for a live host the vendor is set exactly when a MAC was found, and it is what getVendorFromMAC as written answers for that MAC, whatever order the map is iterated in |
| Scanner.CountAlive | scanner/scanner.go:76-78 | the number of live hosts is at most the number of hosts |
| Scanner.CountAliveAppend | scanner/scanner.go:75-78 | appending a host adds one to the count exactly when it is alive |
| Scanner.CountAlivePermutation | scanner/scanner.go:74-79 | the live count does not depend on the order in which the records arrive |
| Scanner.ScanResult.constructor | scanner/scanner.go:43-46 | a new result has TotalHosts = the number of addresses, no hosts and no live hosts |
| Scanner.ScanResult.Collect | scanner/scanner.go:75-78 | one loop step appends the host, adds one to AliveHosts if it is alive, and keeps AliveHosts equal to the live count |
| Scanner.ScanNetwork | scanner/scanner.go:41-83 | after collection, Hosts is the records in arrival order; TotalHosts = number of addresses = number of hosts; AliveHosts = number of live records; the hosts' addresses are the input addresses as a multiset |

## Left out

- `GetLocalNetworkRange` (network/network.go:131-147) asks the operating system for its interfaces, which is I/O.
- `pingHost` is an external process. Its outcome (error and latency) is an input of `ScanHost`.
- The `exec` half of `getMACAddress` is an external process. Its output text is an input.
- The reverse DNS lookup is an input of `ScanHost`.
- The wall-clock times behind `Latency` and `ScanTime` are inputs or left out. `ScanResult` has no `ScanTime` field.
- The worker pool, channels and `WaitGroup` of `ScanNetwork` are concurrency. The model takes the delivered records as an input sequence, one record per input address, in any order. It models only the draining loop.
- IPv6 parsing in `net.ParseIP` and `net.ParseCIDR` is left out. An IPv6 end is represented only by `NonV4`, which expands to nothing.
- Network.ParseIP: `net.ParseIP` also accepts IPv6 text and the IPv4-mapped IPv6 forms. The model rejects them.
- Network.GenerateIPs: requires that the range not end at 255.255.255.255, because there the `uint32` loop never ends (see Findings). `GenerateIPsInclusive` covers every range.
- Network.GenerateIPs: takes Go's `int` as 64 bits. On a 32-bit target, the `int(end - start + 1)` capacity at network/network.go:108 is negative for a wrapped or large size, e.g. `192.168.1.5-192.168.1.1` (-3) or `0.0.0.0-128.0.0.0` (2^31 + 1), and `make` panics there. The model returns the expansion instead and does not model that panic.
- main.go (the terminal interface) is not part of this model.
- GoStrings.ToUpper: Go's `strings.ToUpper` maps every Unicode letter; the model maps only the ASCII letters `a` to `z`. `arp` prints MAC addresses in ASCII, where the two agree.
- Strings are sequences of characters, while Go's `len(mac)` and `mac[:8]` (scanner/scanner.go:180, 185) count bytes. The two agree on ASCII text, which is what `arp` prints; a MAC text with multi-byte characters is not modelled.
- The exact text of the error messages is not modelled: the address text appended to each error. Only the error kind is kept.

## Findings

| source | as written | input that shows it | evidently intended | confidence | as-written member | corrected member |
|---|---|---|---|---|---|---|
| network/network.go:111 | the `uint32` counter wraps from 255.255.255.255 to 0, so `i <= end` never fails when the end is the top address | `255.255.255.255` (or any range ending there) | the loop stops after the end address | high, not executed | Network.TopNeverExits | Network.GenerateIPsInclusive |
| network/network.go:108 | the capacity `end - start + 1` is computed in `uint32` and wraps when start > end + 1, reserving nearly 2^32 slots for an empty list (with a 32-bit `int` the capacity turns negative and `make` panics) | `192.168.1.5-192.168.1.1` reserves 4294967293 | a capacity of 0 for a reversed range | high, not executed | Network.PreSizeWraps | Network.PreSizeChecked |
| scanner/scanner.go:185-207 | the normalised OUI is computed but never used; `HasPrefix` compares the raw MAC text with the colon-joined upper-case keys | `B8-27-EB-12-34-56` (Windows `arp -a` spelling, upper-cased by the ARP parse) gives "Unknown" | look up the normalised OUI, so that any separator and any letter case find the vendor | high, not executed | Scanner.HyphenatedFinding | Scanner.LookupVendor |

`ScanHost` classifies a MAC address with the lookup as written
(`VendorOf`, which `VendorAnyOrder` equates with `GetVendorFromMAC` in every
map order). `LookupVendor` is the corrected lookup on its own. On the
table's own spelling, `LookupAgreesOnTableSpelling` shows both give the
same answer.
