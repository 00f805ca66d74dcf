# netutils — a Dafny model of its parsing and selection logic

netutils is a small Go package of Linux networking helpers. This project models
the parts of it that compute something:

- `Htons`, the 16-bit host-to-network byte swap (module `ByteOrder`);
- `removeExtraSpaces`, which collapses runs of spaces (module `SpaceCollapse`);
- the address loops of `FindIPv4` and `GetInterfaceInfo`, and the
  `InterfaceInfo` record (modules `AddressSelection`, `NetTypes`);
- the row scan of `GetDefaultGatewayInfo` over the ARP cache (module `GatewayInfo`);
- the line scan of `GetDefaultGatewayDevice` over the output of `ip route`
  (module `DefaultRoute`).

The scans use Go's `strings.Split`, `strings.Contains` and `strings.HasPrefix`.
Module `GoStrings` defines them for a one-character separator, and proves that
`Split` and `Join` are inverse.

Whatever the Go code gets from the operating system is a parameter:
- the text of `/proc/net/arp` and the output of `ip route` are `Option<string>`,
  where `None` means the read or the command failed;
- the interface lookup and its address list are an `Option<Link>`;
- `net.ParseMAC`, `net.ParseIP` and the outcome of `net.ParseCIDR` on each
  address are functions or values of `Option` type, where `None` means Go
  reports an error or returns nil;
- whether an address is IPv4 (`Is4`, `To4`) is the parameter `isV4`.

Go returns `(InterfaceInfo{}, err)` on failure. The model returns `Err(e)` of a
`Result`, with one `Error` constructor per error the code reports.

Two places index a slice without a bounds check and panic when it is short:
- `splittedBySpace[3]` in the ARP scan;
- `splitted[i+1]` in the route scan.

These become preconditions, `ArpRowsOk` and `RouteLinesOk`. Each follows the
scan, so it constrains only the first line the scan acts on, exactly as the
panic would.

`removeExtraSpaces` ranges over the runes of its argument and appends
`byte(v)` for each rune it keeps: one byte per rune, whatever the rune's UTF-8
encoding. The model writes this out (`Low8`, `ToBytes`). The method is proved
equal to `ToBytes(CollapseRuns(s))`, where `CollapseRuns` is the rune-level
collapse. Every property of the collapse is proved about `CollapseRuns`.

Those properties carry over to the method only on ASCII text, where each rune
is one byte with the same code (`SpaceCollapse.AsciiOutput`). Every non-ASCII
rune is re-encoded:
- a rune from U+0080 to U+00FF takes two bytes in the input but comes out as
  one byte of 0x80 or more standing alone, which is not valid UTF-8
  (`SpaceCollapse.LatinRuneReencoded`). So "é" comes back changed, and running
  the function on its own output changes it again;
- a rune above U+00FF keeps only its low eight bits. The rune U+0120 becomes
  the byte 0x20, a space, without setting `prevIsSpace`. So a space right
  after it survives, and the output holds two neighbouring spaces
  (`SpaceCollapse.TruncatedRuneDoublesSpace`).

The no-doubled-space, unchanged-input and idempotence promises therefore hold
for the method only on ASCII text.

## Model

| member | source | states |
|---|---|---|
| NetTypes.InterfaceInfo | netutils.go:83-87 | the record of an interface: its name, its hardware address and its IP, the three fields of the Go struct |
| ByteOrder.Htons | netutils.go:14-16 | the low byte of the result is the high byte of the input and vice versa |
| ByteOrder.HtonsArithmetic | netutils.go:14-16 | the swap equals (i mod 256) * 256 + i div 256 on 16 bits |
| ByteOrder.HtonsInvolution | netutils.go:14-16 | swapping twice gives back the input, so the same function converts both ways |
| ByteOrder.HtonsExamples | netutils.go:14-16 | 0x1234 becomes 0x3412 and 0x0102 becomes 0x0201 |
| ByteOrder.EthPAllNetworkOrder | netutils.go:30 | ETH_P_ALL (0x0003) in network order is 0x0300, the protocol value the raw socket is opened with |
| SpaceCollapse.CollapseRuns | netutils.go:161-173 | the collapsed text is no longer than the input, has no two neighbouring spaces, and ends with the input's last character |
| SpaceCollapse.Low8 | netutils.go:172 | byte(v) gives a value below 0x100 and leaves a value already below 0x100 unchanged |
| SpaceCollapse.ToBytes | netutils.go:172 | the bytes appended for the kept runes: byte(v) of each rune, one byte per rune, in order |
| SpaceCollapse.RemoveExtraSpaces | netutils.go:156-176 | the loop with prevIsSpace appends exactly the truncated runes of the rune-level collapse, so the output is never longer than the input |
| SpaceCollapse.AsciiOutput | netutils.go:156-176 | on ASCII text the output bytes are the collapse itself: no two neighbouring spaces, and every non-space character kept in order |
| SpaceCollapse.AsciiCollapse | netutils.go:172 | on ASCII text the collapse stays ASCII and byte(v) changes no kept rune |
| SpaceCollapse.CollapseKeepsFirst | netutils.go:161-173 | the first character is always kept |
| SpaceCollapse.EdgeRunsKeepOneSpace | netutils.go:161-173 | a leading or trailing run of spaces leaves exactly one space, never none |
| SpaceCollapse.CollapseFixedPoint | netutils.go:161-173 | the collapse leaves a text unchanged if and only if it has no two neighbouring spaces |
| SpaceCollapse.CollapseIdempotent | netutils.go:161-173 | collapsing twice is collapsing once |
| SpaceCollapse.CollapseKeepsNonSpaces | netutils.go:161-173 | removing every space from the collapse gives the input with every space removed: only spaces are dropped |
| SpaceCollapse.CollapseGapThenWord | netutils.go:161-173 | a run of spaces after a non-space, followed by a space-free word, collapses to one space and the word |
| SpaceCollapse.TruncatedRuneDoublesSpace | netutils.go:161-172 | U+0120 followed by a space has no doubled space, yet the output is two spaces |
| SpaceCollapse.LatinRuneReencoded | netutils.go:161-172 | a rune from U+0080 to U+00FF, two bytes in UTF-8, comes out as one byte of 0x80 or more, which is not valid UTF-8 on its own |
| AddressSelection.IPv4Unspecified | netutils.go:80 | the fallback address 0.0.0.0 |
| AddressSelection.FirstV4 | netutils.go:69-78 | the index of the first entry that parsed and is IPv4, or the length when there is none |
| AddressSelection.FirstStop | netutils.go:101-114 | the index of the first entry that failed to parse or is IPv4, or the length when there is none |
| AddressSelection.FindIPv4 | netutils.go:68-81 | returns the first entry that parses and is IPv4, skipping entries that fail to parse; 0.0.0.0 when there is none |
| AddressSelection.InterfaceInfoOf | netutils.go:90-119 | the result for a name: InterfaceNotFound without an interface, AddrsUnavailable without an address list; then, at the first entry that failed to parse or is IPv4, the CIDR error or the record with the name, hardware address and that IP; and only the hardware address when no entry stops the loop |
| AddressSelection.GetInterfaceInfo | netutils.go:90-119 | the result is InterfaceInfoOf: not-found and address errors first, then the first IPv4 entry with the name, a parse error if a failed entry comes first, and otherwise only the hardware address |
| AddressSelection.InterfaceInfoOutcomes | netutils.go:101-118 | an existing interface gives an error if and only if an entry before the first IPv4 one failed to parse; the error is then the CIDR error; a success always carries the interface's hardware address; with no IPv4 entry the name and IP stay empty |
| AddressSelection.SelectionsAgreeWhenAllParse | netutils.go:68-118 | when every entry parses, GetInterfaceInfo reports the address FindIPv4 picks, or only the hardware address where FindIPv4 falls back to 0.0.0.0 |
| AddressSelection.SameStopWhenAllParse | netutils.go:69-114 | when every entry parses, both loops stop at the same index |
| AddressSelection.FailureBeforeV4 | netutils.go:69-105 | failed entries ahead of the address list only shift FindIPv4's choice, but make GetInterfaceInfo fail |
| GatewayInfo.RowFields | netutils.go:132 | the fields of a row: removeExtraSpaces, then strings.Split on a single space |
| GatewayInfo.ArpRowsOk | netutils.go:130-134 | when the scan does not panic: the first row containing the name has at least four fields; other rows are not constrained |
| GatewayInfo.MatchedRow | netutils.go:134-148 | the result from a matching row: the MAC error for field 3, else the IP error for field 0, else the record with the name, that MAC and that IP |
| GatewayInfo.ScanArp | netutils.go:130-153 | the rows in order: the first that contains the name gives MatchedRow; without one, the empty record and no error |
| GatewayInfo.GetDefaultGatewayInfo | netutils.go:122-154 | a failed read gives the read error; otherwise the result is the scan: the first row containing the interface name decides, by its fourth field (MAC) and then its first (IP) |
| GatewayInfo.ArpFirstMatchDecides | netutils.go:130-150 | the first row containing the name decides the result by itself, and that row has at least four fields |
| GatewayInfo.ArpNoMatchIsEmpty | netutils.go:130-153 | with no row containing the name, the scan is defined and gives the empty record and no error |
| GatewayInfo.ArpScanOutcomes | netutils.go:134-153 | the only errors are the MAC and IP parse errors; a success is the empty record or a record named after the interface |
| GatewayInfo.MacCheckedFirst | netutils.go:134-142 | a bad MAC field is reported even when the IP field is bad too; the IP error comes only after a good MAC |
| GatewayInfo.LaterRowsIgnored | netutils.go:130-150 | rows after the first match do not affect the result |
| GatewayInfo.RowsOkUpToMatch | netutils.go:130-134 | a first matching row with four fields makes the scan defined, whatever follows |
| GatewayInfo.RowFieldsIgnoreSpacing | netutils.go:132 | on ASCII text, a row and its collapsed form give the same fields |
| GatewayInfo.SpacedRowCollapses | netutils.go:132 | a row of space-free words separated by runs of spaces collapses to the words joined by single spaces |
| GatewayInfo.SpacedRowAscii | netutils.go:132 | a row built from ASCII words is ASCII |
| GatewayInfo.IrregularSpacingSameFields | netutils.go:132 | the fields of such a row are its words, whatever the widths of the gaps, as with single spaces |
| GatewayInfo.SpacedArpRowMatch | netutils.go:132-148 | for a matching row with columns separated by runs of spaces, the MAC comes from the fourth column and the IP from the first |
| DefaultRoute.Qualifies | commands.go:47-54 | a line on which the scan returns: it starts with "default" and has a token equal to "dev" |
| DefaultRoute.DeviceOf | commands.go:48-52 | the token right after the first "dev" token of a line |
| DefaultRoute.RouteLinesOk | commands.go:46-52 | when the scan does not panic: the first qualifying line has a token after its first "dev"; other lines are not constrained |
| DefaultRoute.DefaultDevice | commands.go:46-58 | the lines in order: the first qualifying line gives its device; without one, "" |
| DefaultRoute.DevIndex | commands.go:50-54 | the index of the first token equal to "dev", or the number of tokens when there is none |
| DefaultRoute.GetDefaultGatewayDevice | commands.go:40-59 | a failed command gives ""; otherwise the result is the token after the first "dev" of the first line that starts with "default" and has a "dev" token, or "" when no line does |
| DefaultRoute.FirstQualifyingLineDecides | commands.go:46-54 | the first line with the "default" prefix and a "dev" token decides the device by itself |
| DefaultRoute.NoQualifyingLine | commands.go:46-58 | with no such line, the scan is defined and gives "", not an error |
| DefaultRoute.UnqualifiedLineSkipped | commands.go:46-56 | a line without the prefix or without a "dev" token can be removed from anywhere without changing the result |
| DefaultRoute.RouteLine | commands.go:47-52 | a line joined from space-free tokens splits into them; it qualifies if and only if it starts with "default" and a token is "dev", and it then names the token after the first "dev" |
| DefaultRoute.ExampleDefaultRoute | commands.go:46-53 | "default via 10.0.0.1 dev eth3" gives eth3 |
| DefaultRoute.ExampleNoDefaultRoute | commands.go:46-58 | a table with only "10.0.0.0/24 dev eth0 scope link" gives "" |
| DefaultRoute.ExampleDoubledSpace | commands.go:48-52 | "default dev  eth0" with two spaces gives the empty token |
| DefaultRoute.ExamplePrefixIsExact | commands.go:47 | "Default ..." and " default ..." do not count: the prefix test is case-sensitive and does not trim |
| DefaultRoute.ExampleSkipsLineWithoutDev | commands.go:46-54 | a default route whose only near match is "devx" is passed over, and the next default line decides |
| GoStrings.Split | netutils.go:128 | strings.Split always gives at least one piece, and no piece contains the separator |
| GoStrings.SplitJoin | netutils.go:128 | joining the pieces of a split with the separator gives back the string |
| GoStrings.JoinSplit | commands.go:48 | splitting a join of separator-free pieces gives back the pieces |
| GoStrings.HasPrefix | commands.go:47 | strings.HasPrefix: the string begins with the prefix, compared exactly, with no trimming |
| GoStrings.Contains | netutils.go:131 | strings.Contains: the substring occurs at some position (the empty string occurs everywhere) |
| GoStrings.ContainsAt | netutils.go:131 | an occurrence at any position makes strings.Contains true |
| GoStrings.ContainsWitness | netutils.go:131 | strings.Contains is true only through an occurrence at some position |

## Left out

- OpenRawSocket and GetInterfaceIndex: they make socket, bind and interface-lookup system calls and exit through log.Fatalf. Only the protocol value they pass, Htons(ETH_P_ALL), is modelled. The descriptor is not closed when bind fails; that leak is not modelled.
- EnableIpv4Forwarding: it only writes "1" to a file under /proc, which is I/O.
- CreateTapDevice and StopTapDevice (commands.go): they only run external commands.
- Reading /proc/net/arp, running /sbin/ip and calling net.InterfaceByName and Interface.Addrs: these are I/O. Their results are parameters.
- net.ParseMAC, net.ParseIP, net.ParseCIDR, the netip conversions and Is4/To4: their internals belong to Go's standard library. They are parameters. FindIPv4's netip.MustParseAddr(ip.String()) is taken to give back the same address, so its panic is not modelled.
- The error values carry the failing field or the interface name, not Go's wrapped error text.
- GetInterfaceInfo: without an IPv4 address the code returns a record with only the hardware address, a nil IP and an empty name. The model follows the code, not the zero address 0.0.0.0 that FindIPv4 would give.
- GetDefaultGatewayInfo and GetDefaultGatewayDevice: Go panics when the fourth ARP field or the token after "dev" is missing. The model turns these panics into the preconditions ArpRowsOk and RouteLinesOk, so a panic is ruled out rather than modelled.
- Go strings are bytes, and ranging over one decodes UTF-8. The model takes a string to be its sequence of runes. On valid UTF-8, Split, Contains and HasPrefix give the same answers on runes as on bytes. Invalid UTF-8, which Go decodes to U+FFFD and removeExtraSpaces would then truncate to 0xFD, is not modelled.
- SpaceCollapse.AsciiOutput, GatewayInfo.RowFieldsIgnoreSpacing, GatewayInfo.IrregularSpacingSameFields and GatewayInfo.SpacedArpRowMatch are stated for ASCII text only, because removeExtraSpaces re-encodes every non-ASCII rune (see above); RemoveExtraSpaces itself is proved for every input.
- GatewayInfo: strings.Contains matches the interface name anywhere in the row. So the name "eth1" also selects a row for "eth10", or a row whose address text happens to contain it. The model keeps this looseness as it is, and proves no property that assumes an exact device match.
