# vpn-route-gen, modelled in Dafny

vpn-route-gen builds the `AllowedIPs` line of a WireGuard peer from the HTTP
capture (HAR) files of a browsing session:

- it gathers the host names of the captured requests;
- it resolves each host through the name servers of its domain (plus the public
  resolvers 8.8.8.8, 1.1.1.1 and 9.9.9.9);
- it widens every resolved address to its /16 network;
- it drops each network that holds the destination of a live TCP or UDP
  connection of the machine, as read from `/proc/net/tcp` and `/proc/net/udp`;
- it prints the rest as `AllowedIPs = n1, n2, ...`.

This project models the deterministic logic between the network and the files.

- The hostname helpers and the two result folds of the resolver (`src/dns.rs`).
- The decoding of the kernel's connection tables and the destination search
  (`src/host.rs`).
- The route pipeline of `gen_wg_routes` (`src/main.rs`).

DNS answers, HAR contents and the lines of the connection tables are inputs to
the model.

Modules:

- `Results` (`results.dfy`) holds `Option`, `Result` and the error cases.
- `Text` (`text.dfy`) holds split, join, `split_once` and trim.
- `Digits` (`digits.dfy`) holds `u8::from_str_radix` and decimal rendering.
- `Addr` (`addr.dfy`) holds IPv4 addresses and their text form, CIDR networks and
  the loopback, broadcast and private classes.
- `Dns` (`dns.dfy`), `Host` (`host.dfy`) and `Routes` (`routes.dfy`) follow the
  three source files.

Imperative code is modelled as methods. Each is proved against a specification,
whose properties are lemmas:

- `Dns.CollectNameserverIps` is the nameserver fold, proved equal to `Dns.NameserverIps`.
- `Dns.ServerList` is the server-list fold, proved to list the public resolvers and then every
  nameserver exactly once, and to hold exactly the server set `Dns.Servers`.
- `Host.ReadConnTable` and `Host.FromProcNet` are the line fold of the connection tables, proved
  equal to `Host.ConnTable`.
- `Routes.CollectHosts` is the argument fold, proved equal to `Routes.HostsOf`.
- `Routes.NetFromIp` is `net_from_ip`, proved equal to `Routes.NetOf`.

Expression code is modelled as functions.

## Model

| member | source | states |
|---|---|---|
| Dns.HostnameFromUrl | src/dns.rs:93-99 | a host is given exactly when the URL starts with https://, http:// or wss://; it holds no '/' and is the text after the scheme up to the first '/' |
| Dns.HostnameFromUrlOf | src/dns.rs:93-99 | scheme + host without '/' + empty or '/'-led path yields exactly that host |
| Dns.HostnameFromUrlExamples | src/dns.rs:128-133 | the accepted unit-test URLs give "x.y" |
| Dns.HostnameFromUrlRejects | src/dns.rs:134-137 | rtsp:// and scheme-less URLs give no host |
| Dns.DomainFromHost | src/dns.rs:101-112 | splits on '.', rejects an empty label, then a single label, else joins the last two labels; its properties are `Dns.DomainFromHostSpec` |
| Dns.DomainFromHostSpec | src/dns.rs:101-112 | error TooShortComponent iff some label is empty; TooShortHostname iff there is a single non-empty label; otherwise the last two labels, which are a suffix of the name at a label boundary and are their own domain |
| Dns.DomainFromHostOfLabels | src/dns.rs:101-112 | the result for a name given by its labels, case by case |
| Dns.DomainFromHostTwoLabels | src/dns.rs:107-111 | a name of two non-empty dot-free labels is its own domain |
| Dns.DomainFromHostThreeLabels | src/dns.rs:107-111 | a name of three non-empty dot-free labels gives its last two labels joined by a dot |
| Dns.DomainFromHostDoubleDot | src/dns.rs:102-105 | a name with two adjacent dots is rejected as having an empty component, whatever surrounds them |
| Dns.DomainFromHostLeadingDot | src/dns.rs:102-105 | a name starting with a dot is rejected as having an empty component |
| Dns.DomainFromHostTrailingDot | src/dns.rs:102-105 | a name ending with a dot is rejected as having an empty component |
| Dns.DomainFromHostExamples | src/dns.rs:180-181 | "x.y" gives "x.y" and "x.y.z" gives "y.z" |
| Dns.DomainFromHostRejectsShort | src/dns.rs:182-183 | "" and "x" are errors |
| Dns.DomainFromHostRejectsInner | src/dns.rs:184-186 | "x..", "..x" and "x..y" are errors |
| Dns.DomainFromHostRejectsEnds | src/dns.rs:187-188 | "x.y." and ".x.y" are errors |
| Dns.DomainFromHostRejectsBothEnds | src/dns.rs:189-190 | ".x.y." and ".xxxx.yyy." are errors |
| Dns.DiscardPort | src/dns.rs:118-120 | the result is the prefix before the first ':', holds no ':', and is the input itself when there is no ':' |
| Dns.DiscardPortExamples | src/dns.rs:207-209 | "" and "noport" are unchanged; "a.b.c:4443" gives "a.b.c" |
| Dns.DiscardPortIdempotent | src/dns.rs:118-120 | discarding the port twice equals discarding it once |
| Dns.HostnameIsIp | src/dns.rs:114-116 | an address is given exactly for the dotted-quad text of that address, and none for any other text |
| Dns.HostnameIsIpAccepts | src/dns.rs:201 | "10.1.2.3" is the address 10.1.2.3 |
| Dns.HostnameIsIpRejects | src/dns.rs:202 | "a.b.c.d" is not an address |
| Dns.NameserverIps | src/dns.rs:45-51 | the try_fold over the nameserver answers; its properties are `Dns.NameserverIpsOk`, `Dns.NameserverIpsMembers` and `Dns.NameserverIpsErr` |
| Dns.NameserverIpsOk | src/dns.rs:45-51 | the fold succeeds iff every lookup answered with at least one address |
| Dns.NameserverIpsMembers | src/dns.rs:45-51 | on success the set holds exactly the printed first address of every answer, so it is no larger than the number of answers |
| Dns.NameserverIpsErr | src/dns.rs:45-51 | on failure the error is that of the first lookup without an address |
| Dns.NameserverIpsErrSticks | src/dns.rs:45-51 | once the fold fails, later answers change nothing |
| Dns.CollectNameserverIps | src/dns.rs:45-51 | the imperative fold computes the nameserver fold |
| Dns.ParseIpv4Injective | src/dns.rs:62 | two strings that parse to the same address are equal |
| Dns.ParsedIpsInsert | src/dns.rs:59-65 | reading one more nameserver string adds exactly one new address |
| Dns.ServerListStep | src/dns.rs:61-64 | pushing one parsed address keeps the server list duplicate-free and in step with the strings read |
| Dns.ServerSet | src/dns.rs:59-68 | the public resolvers followed by a listing of the nameservers hold exactly the server set of the lookup |
| Dns.ServerList | src/dns.rs:57-65 | on success the list is 8.8.8.8, 1.1.1.1, 9.9.9.9, then every nameserver string as an address, each once, and its members are exactly `Servers`, the server set `ResolveHostMultiple` sends the lookup to; on error it names a nameserver string that is not an address |
| Dns.NameserversFromHost | src/dns.rs:28-52 | the domain's error, or the nameserver fold over that domain's lookups; every string it gives parses as an address |
| Dns.Printed | src/dns.rs:86 | the printed answer holds exactly the printed answered addresses, each of which parses back |
| Dns.ResolveHostMultiple | src/dns.rs:55-91 | an error iff some nameserver string is not an address; a failed lookup gives the empty set, not an error; otherwise exactly the answered addresses, printed |
| Addr.ParseIpv4 | src/dns.rs:114-116 | `Ipv4Addr::from_str`: four dot-separated canonical decimal octets; tied to the printer by `Addr.Ipv4Canonical` |
| Addr.FormatIpv4 | src/dns.rs:86 | `Ipv4Addr::to_string`; read back by `Addr.FormatIpv4ReadsBack`, injective by `Addr.FormatIpv4Injective` |
| Addr.ParseNet | src/host.rs:44 | the CIDR text "a.b.c.d/len" with len at most 32; read back by `Addr.FormatNetReadsBack` |
| Addr.Contains | src/host.rs:47 | `Ipv4Network::contains`: the first len bits agree; characterised by `Addr.Slash8Contains`, `Addr.Slash16Contains` and `Addr.Slash24Contains` |
| Addr.ParseOctetCanonical | src/dns.rs:114-116 | an octet the address parser accepts is the canonical decimal text of its value |
| Addr.Octets | src/dns.rs:49 | an address prints as four groups of one to three decimal digits |
| Addr.ParseOctetOfDec | src/dns.rs:114-116 | the decimal text of a byte parses back to that byte |
| Addr.FormatIpv4ReadsBack | src/dns.rs:114-116 | the parser reads a printed address back |
| Addr.FormatIpv4Injective | src/dns.rs:86 | different addresses print differently |
| Addr.FormatIpv4Lacks | src/main.rs:84-90 | a printed address holds only digits and dots |
| Addr.Ipv4Canonical | src/dns.rs:114-116 | a string parses to an address iff it is that address printed |
| Addr.FormatNetReadsBack | src/host.rs:44 | the CIDR parser reads a printed network back |
| Addr.Prefixes | src/host.rs:47 | the leading 8, 12, 16 and 32 bits of an address, octet by octet |
| Addr.ToU32Injective | src/host.rs:47 | different addresses are different 32-bit numbers |
| Addr.Slash8Contains | src/host.rs:47 | a /8 holds exactly the addresses that share its first octet |
| Addr.Slash16Contains | src/host.rs:47 | a /16 holds exactly the addresses that share its first two octets |
| Addr.Slash24Contains | src/host.rs:47 | a /24 holds exactly the addresses that share its first three octets |
| Addr.LoopbackIsPrefix | src/main.rs:21 | loopback is the prefix 127.0.0.0/8 |
| Addr.BroadcastIsPrefix | src/main.rs:21 | broadcast is the single address 255.255.255.255/32 |
| Addr.PrivateIsPrefixes | src/main.rs:21 | private is 10.0.0.0/8, 172.16.0.0/12 or 192.168.0.0/16 |
| Digits.HexPairValue | src/host.rs:66-68 | two hex digits read as high digit times 16 plus low digit |
| Digits.HexPairAccepted | src/host.rs:66-68 | a two-character group is accepted in radix 16 iff it is two hex digits or '+' and one hex digit |
| Digits.DecOfCanonical | src/dns.rs:114-116 | canonical decimal digits are the rendering of their value |
| Host.FromHex2 | src/host.rs:66-68 | an error names the group; an accepted value ends in the group's last digit |
| Host.FromHex2IsFromStrRadix | src/host.rs:66-68 | the group reader accepts exactly what `u8::from_str_radix(s, 16)` accepts, with the same value |
| Host.ParseIpPort | src/host.rs:52-64 | its errors are only the missing port, the length error, or a bad hex group |
| Host.HexByte | src/host.rs:60-61 | the two hex digits written for a byte read back as that byte |
| Host.ParseIpPortHex | src/host.rs:52-64 | for hex text of lengths 8 and 4 the address is the four bytes in reverse order and the port is x*256+y |
| Host.ParseEncodeIpPort | src/host.rs:52-64 | every endpoint the kernel writes decodes to its address and port |
| Host.ParseIpPortNoColon | src/host.rs:54-56 | the missing-port error occurs iff the text holds no ':' |
| Host.ParseIpPortLengths | src/host.rs:57-58 | after a ':', the length error occurs iff the address is not 8 characters or the port is not 4 |
| Host.ParseIpPortExample | src/host.rs:76 | "C301A8C0:E5BC" is 192.168.1.195, port 58812 |
| Host.ParseIpPortRejects | src/host.rs:77-79 | a 7-character address and a 5-character port give the length error; "C30xA8C0:E5BC" gives the hex error on "0x" |
| Host.ParseIpPortGroups | src/host.rs:60-61 | for texts of lengths 8 and 4, the endpoint is read iff all six groups are hex bytes; otherwise the error names the first group that is not |
| Host.ParseIpPortSecondGroupBad | src/host.rs:60 | a bad second address group is reported once the first is read |
| Host.ParseIpPortBadHex | src/host.rs:79 | "C30xA8C0:E5BC" is rejected for its group "0x" |
| Host.SplitFields | src/host.rs:26 | the space-split fields of a slot, a source, a destination and more |
| Host.LineFields | src/host.rs:26 | the same after trimming an indented kernel line |
| Host.ParseLine | src/host.rs:26-33 | trims the line, splits it on ' ', rejects fewer than three fields, reads fields 1 and 2 as source and destination; its properties are `Host.ParseLineFields` and `Host.ParseLineTooFew` |
| Host.ParseLineFields | src/host.rs:26-33 | a line's second field is the source and its third the destination of its connection |
| Host.ParseLineExample | src/host.rs:26-33 | an indented kernel line gives 127.0.0.1:631 to 0.0.0.0:0 |
| Host.LoopbackEndpoint | src/host.rs:52-64 | "0100007F:0277" is 127.0.0.1, port 631 |
| Host.AnyEndpoint | src/host.rs:52-64 | "00000000:0000" is 0.0.0.0, port 0 |
| Host.ParseLineTooFew | src/host.rs:26-28 | the too-few-fields error, naming the table and the line, occurs exactly when the trimmed line holds fewer than two spaces |
| Host.FoldConns | src/host.rs:24-35 | the try_fold over the parsed lines; its properties are `Host.FoldConnsSpec` and `Host.FoldConnsErrSticks` |
| Host.ConnTable | src/host.rs:21-35 | skips the header line and folds the rest; its properties are `Host.ConnTableOk`, `Host.ConnTableErr` and `Host.HeaderIgnored` |
| Host.HeaderIgnored | src/host.rs:23 | the header line's text does not matter |
| Host.FoldConnsSpec | src/host.rs:24-35 | the fold succeeds iff every line parses; then it holds every connection in line order; otherwise its error is that of the first bad line |
| Host.ConnTableOk | src/host.rs:21-36 | a table succeeds iff every line after the header parses, and then holds their connections in line order |
| Host.ConnTableErr | src/host.rs:21-36 | a failed table reports the first bad line after the header |
| Host.FoldConnsErrSticks | src/host.rs:24-35 | once the fold fails, later lines change nothing |
| Host.ReadConnTable | src/host.rs:21-35 | the imperative line fold computes the table |
| Host.FromProcNet | src/host.rs:17-41 | succeeds iff both tables do, with both tables' connections; on failure the TCP error comes first |
| Host.FirstDstIn | src/host.rs:45-47 | none iff no destination lies in the network; otherwise the first connection whose destination does |
| Host.DstIn | src/host.rs:45-48 | none iff no TCP or UDP destination lies in the network; otherwise the printed address and port of the first such connection, TCP before UDP |
| Host.ContainsDst | src/host.rs:43-49 | the same for the network given as text |
| Host.ContainsDstFormatNet | src/host.rs:43-49 | on the CIDR text of a network, the answer is that of `Host.DstIn` for the network, so the unit tests below hold for their texts |
| Host.FirstDstInSameDsts | src/host.rs:47 | the search depends only on destinations |
| Host.ContainsDstIgnoresSources | src/host.rs:47 | hosts with the same destinations give the same answer, whatever the sources |
| Host.ContainsDstTcpFirst | src/host.rs:45-47 | when a TCP destination lies in the network, the answer is a TCP connection |
| Host.ContainsDstSlash24 | src/host.rs:107-108 | the /24 unit tests find 192.168.200.5 and 172.17.250.5 |
| Host.ContainsDstSlash16 | src/host.rs:109-110 | the /16 unit tests find 10.0.2.7 and 12.0.2.7 |
| Host.ContainsDstNone | src/host.rs:112-113 | 13.0.0.0/8 holds nothing; 192.168.100.0/24 holds only a source, so it gives none |
| Routes.HostsOf | src/main.rs:9-13 | the try_fold over the files' host names; its properties are `Routes.HostsOfOk` and `Routes.HostsOfErr` |
| Routes.HostsOfOk | src/main.rs:9-13 | the fold succeeds iff every file was read; then a name is in the set iff some file holds it |
| Routes.HostsOfErr | src/main.rs:9-13 | on failure the error is that of the first unreadable file |
| Routes.HostsOfErrSticks | src/main.rs:9-13 | once the fold fails, later files change nothing |
| Routes.CollectHosts | src/main.rs:9-13 | the imperative fold computes the union |
| Routes.NetOf | src/main.rs:84-90 | drops the last two dot-separated parts, appends "0" twice, joins with '.' and appends "/16"; its properties are `Routes.NetOfFields`, `Routes.NetOfContains` and `Routes.NetOfSameSlash16` |
| Routes.NetFromIp | src/main.rs:84-90 | the imperative construction computes the network text |
| Routes.NetOfFields | src/main.rs:84-90 | "A.B.C.D" gives "A.B.0.0/16" |
| Routes.NetOfIpv4 | src/main.rs:84-90 | a printed address gives the printed /16 network with its first two octets |
| Routes.NetOfContains | src/main.rs:84-90 | the network parses, holds exactly the addresses that share the first two octets, and holds the address |
| Routes.NetOfSameSlash16 | src/main.rs:84-90 | two addresses give the same network iff they share their first two octets |
| Routes.NetOfLacksComma | src/main.rs:79 | a network text holds no ',' |
| Routes.IsLocal | src/main.rs:21 | loopback, broadcast or private; as prefixes by `Addr.LoopbackIsPrefix`, `Addr.BroadcastIsPrefix` and `Addr.PrivateIsPrefixes` |
| Routes.HostIps | src/main.rs:15-32 | every address a host gives is a printed IPv4 address |
| Routes.HostIpsLiteral | src/main.rs:19-25 | a literal address with a port gives no address if local, else the address alone; the port makes no difference |
| Routes.HostIpsPort | src/main.rs:19 | any host name gives what it gives without its port |
| Routes.HostIpsBadDomain | src/main.rs:26-28 | a name that is not an address and has no domain fails with the domain error |
| Routes.Outcomes | src/main.rs:15-32 | each host mapped to its outcome; see `Routes.OkFailPartition` |
| Routes.OkHosts | src/main.rs:34-44 | the hosts whose outcome is a success; see `Routes.OkFailPartition` |
| Routes.FailHosts | src/main.rs:46-56 | the hosts whose outcome is an error; see `Routes.OkFailPartition` |
| Routes.OkFailPartition | src/main.rs:34-56 | every host is in exactly one of the success and failure maps, with its own outcome |
| Routes.LiteralHostKeyed | src/main.rs:15-24 | a public literal host is keyed by its text, port included, with the bare address as value |
| Routes.ResolvedAllIpv4 | src/main.rs:63-65 | every resolved string is an IPv4 address |
| Routes.NetworksParse | src/main.rs:67 | every network built from a resolved address parses |
| Routes.KeptNets | src/main.rs:68-76 | the networks holding no connection destination; its properties are `Routes.KeptNetsSpec` and `Routes.KeptNetsIdempotent` |
| Routes.KeptNetsSpec | src/main.rs:68-76 | a network is kept iff it is a candidate and no destination lies in it |
| Routes.KeptNetsIdempotent | src/main.rs:68-76 | filtering twice is filtering once |
| Routes.RouteNets | src/main.rs:8-79 | the whole pipeline up to the set of printed networks; its properties are `Routes.RouteNetsSpec` |
| Routes.RouteNetsSpec | src/main.rs:8-79 | fails iff a file or a connection table fails; otherwise a network is printed iff it is the /16 of a resolved address and holds no connection destination |
| Routes.RouteLine | src/main.rs:79-81 | "AllowedIPs = " then the networks joined with ", "; its properties are `Routes.RouteLineReadsBack` and `Routes.RouteOutput` |
| Routes.RouteLineReadsBack | src/main.rs:79-81 | the line starts with "AllowedIPs = " and splitting the rest on ", " gives the networks back |
| Routes.RouteLineEmpty | src/main.rs:81 | with no networks the line is "AllowedIPs = " |
| Routes.RouteNetsLackComma | src/main.rs:63-79 | no printed network holds ',' |
| Routes.RouteOutput | src/main.rs:76-81 | any duplicate-free ordering of the networks lists each once and reads back from the line |
| Routes.DistinctCard | src/main.rs:76-78 | a duplicate-free listing of a set is as long as the set |

## Left out

- Reading HAR files (`hostnames_from_har`, src/dns.rs:8-26) is file I/O through the `har` crate. Each file is an input: its host names, or the error reading it gave.
- The DNS queries and the runtime are network I/O, with `unwrap` panics at src/dns.rs:29, 33 and 34. The lookups are inputs (`Dns.Resolver`).
- Name-server answers are taken in the order the query listed them. The trailing '.' trimming of name-server names (src/dns.rs:37) happens inside the query input.
- Lookups are modelled as returning IPv4 addresses only. IPv6 answers, which `net_from_ip` would mangle, are not modelled.
- The text of error messages is not modelled: errors are `Results.Error` constructors carrying the offending text.
- `Dns.ResolveHostMultiple`: when several nameserver strings fail to parse, the model names one of them without fixing which. The source names the first one in hash-set order.
- Reading `/proc/net/tcp` and `/proc/net/udp` is file I/O. The lines are inputs, as `lines()` would split them, and the read errors are not modelled.
- `Ipv4Addr::from_str` is modelled as four dot-separated decimal octets. Each octet is at most 255 and has no superfluous leading zero.
- The `ipnetwork` CIDR parser is reduced to "a.b.c.d/len", the form `net_from_ip` builds. The other forms it accepts (a bare address, a netmask) are not modelled.
- `Host.ContainsDst`: the `unwrap` panic on an unparsable network text (src/host.rs:44) is a precondition. The pipeline proves it is always met (`Routes.NetworksParse`), because lookups are modelled as IPv4-only; an IPv6 answer would break it.
- `Host.FromHex2`: only two-character groups are modelled, the only ones `parse_ip_port` passes. The leading '+' that `u8::from_str_radix` accepts is kept.
- Lengths are counted in characters, not bytes. The slicing panic on non-ASCII text in `parse_ip_port` is not modelled.
- `Host.ParseIpPort`: the "no ip" error at src/host.rs:55 cannot occur, since a split always yields a first piece, so it has no error case.
- `println!` diagnostics, `std::env::args` and `main` are left out.
- Hash-set and hash-map iteration order is left out.
  - The server list is iterated in an arbitrary order.
  - The output line takes the order of its networks as a parameter: any duplicate-free enumeration of the kept set.
- Tests that need the network or the file system (src/dns.rs:141-197, src/host.rs:83-90) are not modelled.
