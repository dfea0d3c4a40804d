/** The route generator: gather the host names, resolve each to addresses, keep
    the /16 networks of the resolved addresses that hold no live connection of
    this host, and print them as a WireGuard `AllowedIPs` line. */
module Routes {
  import opened Results
  import opened Text
  import opened Digits
  import opened Addr
  import opened Dns
  import opened Host

  // ---------------------------------------------------------------------------
  // The host names of the HAR files named on the command line

  /** The union of the host names of every file, or the error of the first file
      that could not be read. Each entry of `files` is what reading one file gave. */
  function HostsOf(files: seq<Result<seq<string>>>): Result<set<string>>
  {
    if |files| == 0 then Ok({})
    else
      var acc :- HostsOf(files[..|files| - 1]);
      var names :- files[|files| - 1];
      Ok(acc + set h | h in names)
  }

  lemma {:induction false} HostsOfLast(files: seq<Result<seq<string>>>)
    requires |files| > 0
    ensures var prev := HostsOf(files[..|files| - 1]);
      var f := files[|files| - 1];
      HostsOf(files) ==
        if prev.Err? then prev
        else if f.Err? then Err(f.error)
        else Ok(prev.value + set h | h in f.value)
  {
  }

  /** `k` is the first file that could not be read. */
  predicate FirstBadFile(files: seq<Result<seq<string>>>, k: nat)
  {
    k < |files| && files[k].Err? && forall i :: 0 <= i < k ==> files[i].Ok?
  }

  /** The argument fold succeeds exactly when every file is read; then a name is
      collected exactly when some file holds it. */
  lemma {:induction false} HostsOfOk(files: seq<Result<seq<string>>>)
    ensures HostsOf(files).Ok? <==> forall i :: 0 <= i < |files| ==> files[i].Ok?
    ensures HostsOf(files).Ok? ==>
      forall h :: h in HostsOf(files).value <==> exists i :: 0 <= i < |files| && h in files[i].value
  {
    if |files| > 0 {
      var n := |files| - 1;
      var prefix := files[..n];
      HostsOfOk(prefix);
      HostsOfLast(files);
      assert forall i :: 0 <= i < n ==> prefix[i] == files[i];
      if HostsOf(files).Ok? {
        forall h ensures h in HostsOf(files).value <==> exists i :: 0 <= i < |files| && h in files[i].value {
          if h in files[n].value {
            assert 0 <= n < |files| && h in files[n].value;
          }
        }
      }
    }
  }

  /** Otherwise its error is that of the first file that could not be read. */
  lemma {:induction false} HostsOfErr(files: seq<Result<seq<string>>>)
    ensures HostsOf(files).Err? ==> exists k: nat :: FirstBadFile(files, k) && HostsOf(files).error == files[k].error
  {
    if |files| > 0 {
      var n := |files| - 1;
      var prefix := files[..n];
      HostsOfErr(prefix);
      HostsOfLast(files);
      assert forall i :: 0 <= i < n ==> prefix[i] == files[i];
      var prev := HostsOf(prefix);
      if prev.Err? {
        var k: nat :| FirstBadFile(prefix, k) && prev.error == prefix[k].error;
        assert FirstBadFile(files, k);
      } else if files[n].Err? {
        HostsOfOk(prefix);
        assert FirstBadFile(files, n);
      }
    }
  }

  lemma {:induction false} HostsOfErrSticks(files: seq<Result<seq<string>>>, j: nat, e: Error)
    requires j <= |files| && HostsOf(files[..j]) == Err(e)
    ensures HostsOf(files) == Err(e)
    decreases |files| - j
  {
    if j < |files| {
      var prefix := files[..j + 1];
      assert prefix[..j] == files[..j];
      HostsOfLast(prefix);
      HostsOfErrSticks(files, j + 1, e);
    } else {
      assert files[..j] == files;
    }
  }

  /** The argument fold of `gen_wg_routes`: each file's names are inserted one by
      one into the accumulated set; a file that cannot be read ends the fold. */
  method CollectHosts(files: seq<Result<seq<string>>>) returns (r: Result<set<string>>)
    ensures r == HostsOf(files)
  {
    var acc: set<string> := {};
    for i := 0 to |files|
      invariant HostsOf(files[..i]) == Ok(acc)
    {
      assert files[..i + 1][..i] == files[..i];
      HostsOfLast(files[..i + 1]);
      if files[i].Err? {
        HostsOfErrSticks(files, i + 1, files[i].error);
        return Err(files[i].error);
      }
      var names := files[i].value;
      ghost var before := acc;
      for j := 0 to |names|
        invariant acc == before + set h | h in names[..j]
      {
        assert names[..j + 1] == names[..j] + [names[j]];
        acc := acc + {names[j]};
      }
      assert names[..|names|] == names;
    }
    assert files[..|files|] == files;
    return Ok(acc);
  }

  // ---------------------------------------------------------------------------
  // `net_from_ip`: the /16 network of an address

  /** The dot-separated components of `ip` without the last two, then "0" and "0",
      joined with '.', followed by "/16". */
  function NetOf(ip: string): string
  {
    var parts := Split(ip, '.');
    var kept := if |parts| >= 2 then parts[..|parts| - 2] else [];
    Join(kept + ["0", "0"], ".") + "/16"
  }

  /** `net_from_ip`: the kept components, with "0" pushed twice. */
  method NetFromIp(ip: string) returns (net: string)
    ensures net == NetOf(ip)
  {
    var parts := Split(ip, '.');
    var kept: seq<string> := if |parts| >= 2 then parts[..|parts| - 2] else [];
    kept := kept + ["0"];
    kept := kept + ["0"];
    assert kept == (if |parts| >= 2 then parts[..|parts| - 2] else []) + ["0", "0"];
    net := Join(kept, ".") + "/16";
  }

  /** Four dot-free components "A.B.C.D" give "A.B.0.0/16". */
  lemma {:induction false} NetOfFields(a: string, b: string, c: string, d: string)
    requires '.' !in a && '.' !in b && '.' !in c && '.' !in d
    ensures NetOf(a + "." + b + "." + c + "." + d) == a + "." + b + ".0.0/16"
  {
    SplitNoSep(d, '.');
    SplitCons(c, d, '.');
    SplitCons(b, c + [ '.' ] + d, '.');
    SplitCons(a, b + ['.'] + (c + ['.'] + d), '.');
    assert a + "." + b + "." + c + "." + d == a + ['.'] + (b + ['.'] + (c + ['.'] + d));
    var parts := [a, b, c, d];
    assert Split(a + "." + b + "." + c + "." + d, '.') == parts;
    assert parts[..2] == [a, b];
    var kept := [a, b] + ["0", "0"];
    assert kept[1..] == [b, "0", "0"] && kept[1..][1..] == ["0", "0"] && ["0", "0"][1..] == ["0"];
    assert Join(["0", "0"], ".") == "0.0";
    assert Join([b, "0", "0"], ".") == b + "." + "0.0";
    assert Join(kept, ".") == a + "." + (b + "." + "0.0");
  }

  /** For a printed address the network is the printed /16 prefix of its first two
      octets. */
  lemma {:induction false} NetOfIpv4(ip: Ipv4Addr)
    ensures NetOf(FormatIpv4(ip)) == FormatNet(Ipv4Net(Ipv4Addr(ip.a, ip.b, 0, 0), 16))
  {
    var parts := Octets(ip);
    DigitsLack(parts[0], '.');
    DigitsLack(parts[1], '.');
    DigitsLack(parts[2], '.');
    DigitsLack(parts[3], '.');
    SplitOnJoin(parts, ".");
    assert Split(FormatIpv4(ip), '.') == parts;
    assert Dec(0) == "0";
    assert Dec(16) == Dec(1) + "6" == "16";
    var base := Ipv4Addr(ip.a, ip.b, 0, 0);
    assert Octets(base) == parts[..2] + ["0", "0"];
    assert FormatNet(Ipv4Net(base, 16)) == FormatIpv4(base) + "/16";
  }

  /** The network of a printed address parses, and holds exactly the addresses that
      share its first two octets; in particular it holds the address itself. */
  lemma {:induction false} NetOfContains(ip: Ipv4Addr, other: Ipv4Addr)
    ensures ParseNet(NetOf(FormatIpv4(ip))) == Some(Ipv4Net(Ipv4Addr(ip.a, ip.b, 0, 0), 16))
    ensures Contains(ParseNet(NetOf(FormatIpv4(ip))).value, other) <==> other.a == ip.a && other.b == ip.b
    ensures Contains(ParseNet(NetOf(FormatIpv4(ip))).value, ip)
  {
    var net := Ipv4Net(Ipv4Addr(ip.a, ip.b, 0, 0), 16);
    NetOfIpv4(ip);
    FormatNetReadsBack(net);
    Slash16Contains(net.base, other);
    Slash16Contains(net.base, ip);
  }

  /** Two addresses share a network string exactly when they share their first two
      octets. */
  lemma {:induction false} NetOfSameSlash16(x: Ipv4Addr, y: Ipv4Addr)
    ensures NetOf(FormatIpv4(x)) == NetOf(FormatIpv4(y)) <==> x.a == y.a && x.b == y.b
  {
    NetOfContains(x, y);
    NetOfContains(y, x);
    NetOfIpv4(x);
    NetOfIpv4(y);
  }

  /** Network strings hold no ',', so the output line can be split again. */
  lemma {:induction false} NetOfLacksComma(ip: Ipv4Addr)
    ensures ',' !in NetOf(FormatIpv4(ip))
  {
    NetOfIpv4(ip);
    FormatIpv4Lacks(Ipv4Addr(ip.a, ip.b, 0, 0), ',');
    assert Dec(16) == Dec(1) + "6" == "16";
  }

  // ---------------------------------------------------------------------------
  // The outcome for one host

  /** The literal addresses that are never routed: loopback, limited broadcast and
      the private ranges. */
  predicate IsLocal(ip: Ipv4Addr)
  {
    IsLoopback(ip) || IsBroadcast(ip) || IsPrivate(ip)
  }

  /** The addresses of one host name: its port is discarded; a literal address
      gives itself unless it is local; any other name is resolved through the
      name servers of its domain. Every address it gives is a printed IPv4 address. */
  ghost function HostIps(host: string, res: Resolver): (r: Result<set<string>>)
    ensures r.Ok? ==> AllIpv4(r.value)
  {
    var name := DiscardPort(host);
    match HostnameIsIp(name)
    case Some(ip) =>
      if IsLocal(ip) then Ok({})
      else FormatIpv4ReadsBack(ip); Ok({name})
    case None =>
      var nameserverIps :- NameserversFromHost(name, res);
      ResolveHostMultiple(name, nameserverIps, res)
  }

  /** The port is discarded before anything else: a host name, literal address or
      not, gives what it gives without its port. */
  lemma {:induction false} HostIpsPort(host: string, res: Resolver)
    ensures HostIps(host, res) == HostIps(DiscardPort(host), res)
  {
    DiscardPortIdempotent(host);
  }

  /** A literal address with a port: the port is discarded, and the address is
      kept unless it is local. */
  lemma {:induction false} HostIpsLiteral(ip: Ipv4Addr, port: string, res: Resolver)
    ensures HostIps(FormatIpv4(ip) + ":" + port, res) == if IsLocal(ip) then Ok({}) else Ok({FormatIpv4(ip)})
    ensures HostIps(FormatIpv4(ip), res) == HostIps(FormatIpv4(ip) + ":" + port, res)
  {
    var s := FormatIpv4(ip);
    FormatIpv4Lacks(ip, ':');
    assert DiscardPort(s) == s;
    assert DiscardPort(s + ":" + port) == s by {
      assert s + ":" + port == s + [':'] + port;
      SplitOnceAt(s, port, ':');
    }
    match HostnameIsIp(s)
    case Some(v) => FormatIpv4Injective(v, ip);
    case None =>
  }

  /** A name that is not a literal address and whose domain cannot be taken fails
      with the domain error. */
  lemma {:induction false} HostIpsBadDomain(host: string, res: Resolver)
    requires HostnameIsIp(DiscardPort(host)).None? && DomainFromHost(DiscardPort(host)).Err?
    ensures HostIps(host, res) == Err(DomainFromHost(DiscardPort(host)).error)
  {
  }

  /** The outcome of every host, keyed by the host as it was given. */
  ghost function Outcomes(hosts: set<string>, res: Resolver): map<string, Result<set<string>>>
  {
    map h | h in hosts :: HostIps(h, res)
  }

  /** The hosts that resolved, with their addresses. */
  function OkHosts(outcomes: map<string, Result<set<string>>>): map<string, set<string>>
  {
    map h | h in outcomes && outcomes[h].Ok? :: outcomes[h].value
  }

  /** The hosts that did not, with their errors. */
  function FailHosts(outcomes: map<string, Result<set<string>>>): map<string, Error>
  {
    map h | h in outcomes && outcomes[h].Err? :: outcomes[h].error
  }

  /** Every host is in exactly one of the two maps, under its own key, with its own
      outcome. */
  lemma {:induction false} OkFailPartition(hosts: set<string>, res: Resolver)
    ensures var outcomes := Outcomes(hosts, res);
      OkHosts(outcomes).Keys !! FailHosts(outcomes).Keys &&
      OkHosts(outcomes).Keys + FailHosts(outcomes).Keys == hosts
    ensures var outcomes := Outcomes(hosts, res);
      (forall h :: h in OkHosts(outcomes) ==> HostIps(h, res) == Ok(OkHosts(outcomes)[h])) &&
      (forall h :: h in FailHosts(outcomes) ==> HostIps(h, res) == Err(FailHosts(outcomes)[h]))
  {
    var outcomes := Outcomes(hosts, res);
    assert OkHosts(outcomes).Keys + FailHosts(outcomes).Keys == hosts by {
      forall h | h in hosts ensures h in OkHosts(outcomes) || h in FailHosts(outcomes) {
        assert h in outcomes;
      }
    }
  }

  /** A public literal address with a port is listed under the given text, port
      included, with the address alone as its value. */
  lemma {:induction false} LiteralHostKeyed(hosts: set<string>, ip: Ipv4Addr, port: string, res: Resolver)
    requires FormatIpv4(ip) + ":" + port in hosts && !IsLocal(ip)
    ensures var ok := OkHosts(Outcomes(hosts, res));
      FormatIpv4(ip) + ":" + port in ok && ok[FormatIpv4(ip) + ":" + port] == {FormatIpv4(ip)}
  {
    HostIpsLiteral(ip, port, res);
  }

  // ---------------------------------------------------------------------------
  // Networks, the conflict filter and the output line

  /** Every address of every resolved host. */
  function ResolvedIps(ok: map<string, set<string>>): set<string>
  {
    set h, ip | h in ok && ip in ok[h] :: ip
  }

  /** The networks of a set of addresses. */
  function Networks(ips: set<string>): set<string>
  {
    set ip | ip in ips :: NetOf(ip)
  }

  predicate AllNets(nets: set<string>)
  {
    forall n :: n in nets ==> ParseNet(n).Some?
  }

  /** The networks that hold no destination of a connection of the host. */
  function KeptNets(nets: set<string>, h: Host): set<string>
    requires AllNets(nets)
  {
    set n | n in nets && ContainsDst(h, n).None?
  }

  /** Resolved addresses are printed IPv4 addresses. */
  lemma {:induction false} ResolvedAllIpv4(hosts: set<string>, res: Resolver)
    ensures AllIpv4(ResolvedIps(OkHosts(Outcomes(hosts, res))))
  {
    var ok := OkHosts(Outcomes(hosts, res));
    OkFailPartition(hosts, res);
    forall ip | ip in ResolvedIps(ok) ensures ParseIpv4(ip).Some? {
      var h :| h in ok && ip in ok[h];
      assert HostIps(h, res).Ok?;
    }
  }

  /** The network of every printed address parses. */
  lemma {:induction false} NetworksParse(ips: set<string>)
    requires AllIpv4(ips)
    ensures AllNets(Networks(ips))
  {
    forall n | n in Networks(ips) ensures ParseNet(n).Some? {
      var ip :| ip in ips && n == NetOf(ip);
      var addr := ParseIpv4(ip).value;
      Ipv4Canonical(ip, addr);
      NetOfContains(addr, addr);
    }
  }

  /** The filter keeps a network exactly when no connection of the host, TCP or
      UDP, goes to an address inside it. */
  lemma {:induction false} KeptNetsSpec(nets: set<string>, h: Host)
    requires AllNets(nets)
    ensures forall n :: n in KeptNets(nets, h) <==>
      n in nets && forall c :: c in Conns(h) ==> !Contains(ParseNet(n).value, c.dstIp)
  {
  }

  /** Filtering again against the same connections changes nothing. */
  lemma {:induction false} KeptNetsIdempotent(nets: set<string>, h: Host)
    requires AllNets(nets)
    ensures AllNets(KeptNets(nets, h)) && KeptNets(KeptNets(nets, h), h) == KeptNets(nets, h)
  {
  }

  /** The networks `gen_wg_routes` prints: the host names are gathered first, the
      connection tables are read next, and either may fail; the networks are those
      of the resolved addresses that hold no destination of a connection. */
  ghost function RouteNets(files: seq<Result<seq<string>>>, res: Resolver, tcpLines: seq<string>, udpLines: seq<string>): Result<set<string>>
  {
    var hosts :- HostsOf(files);
    var tcp :- ConnTable(tcpLines, "tcp");
    var udp :- ConnTable(udpLines, "udp");
    var ips := ResolvedIps(OkHosts(Outcomes(hosts, res)));
    ResolvedAllIpv4(hosts, res);
    NetworksParse(ips);
    Ok(KeptNets(Networks(ips), Host(tcp, udp)))
  }

  /** What `gen_wg_routes` promises. It fails exactly when a file cannot be read or
      a connection table cannot be parsed. Otherwise every printed network is the
      /16 of an address some host resolved to, and no connection of this host goes
      into it; and every such /16 without a connection in it is printed. */
  lemma {:induction false} RouteNetsSpec(files: seq<Result<seq<string>>>, res: Resolver, tcpLines: seq<string>, udpLines: seq<string>)
    ensures var r := RouteNets(files, res, tcpLines, udpLines);
      r.Err? <==> HostsOf(files).Err? || ConnTable(tcpLines, "tcp").Err? || ConnTable(udpLines, "udp").Err?
    ensures var r := RouteNets(files, res, tcpLines, udpLines);
      r.Ok? ==>
        var ok := OkHosts(Outcomes(HostsOf(files).value, res));
        var h := Host(ConnTable(tcpLines, "tcp").value, ConnTable(udpLines, "udp").value);
        forall n :: n in r.value <==>
          && (exists host, ip :: host in ok && ip in ok[host] && n == NetOf(ip))
          && ParseNet(n).Some?
          && forall c :: c in Conns(h) ==> !Contains(ParseNet(n).value, c.dstIp)
  {
    var r := RouteNets(files, res, tcpLines, udpLines);
    if r.Ok? {
      var hosts := HostsOf(files).value;
      var ok := OkHosts(Outcomes(hosts, res));
      var ips := ResolvedIps(ok);
      ResolvedAllIpv4(hosts, res);
      NetworksParse(ips);
      var h := Host(ConnTable(tcpLines, "tcp").value, ConnTable(udpLines, "udp").value);
      KeptNetsSpec(Networks(ips), h);
      assert r.value == KeptNets(Networks(ips), h);
      forall n ensures n in Networks(ips) <==> exists host, ip :: host in ok && ip in ok[host] && n == NetOf(ip) {
        if n in Networks(ips) {
          var ip :| ip in ips && n == NetOf(ip);
          var host :| host in ok && ip in ok[host];
        }
      }
    }
  }

  /** The printed line, for one enumeration of the networks. */
  function RouteLine(order: seq<string>): string
  {
    "AllowedIPs = " + Join(order, ", ")
  }

  /** `order` lists every element of `nets` once. */
  predicate Enumerates(order: seq<string>, nets: set<string>)
  {
    Distinct(order) && (forall i :: 0 <= i < |order| ==> order[i] in nets) && (forall n :: n in nets ==> n in order)
  }

  /** The line reads back: after its fixed head, splitting on ", " gives the
      enumeration again, so it lists every kept network exactly once. */
  lemma {:induction false} RouteLineReadsBack(order: seq<string>)
    requires |order| >= 1 && forall i :: 0 <= i < |order| ==> ',' !in order[i]
    ensures "AllowedIPs = " <= RouteLine(order)
    ensures SplitOn(RouteLine(order)[|"AllowedIPs = "|..], ", ") == order
  {
    var head := "AllowedIPs = ";
    assert RouteLine(order)[|head|..] == Join(order, ", ");
    SplitOnJoin(order, ", ");
  }

  /** With nothing to route the line is the bare head. */
  lemma {:induction false} RouteLineEmpty()
    ensures RouteLine([]) == "AllowedIPs = "
  {
  }

  /** The printed networks never contain a ',': each is the /16 of a printed address. */
  lemma {:induction false} RouteNetsLackComma(files: seq<Result<seq<string>>>, res: Resolver, tcpLines: seq<string>, udpLines: seq<string>)
    requires RouteNets(files, res, tcpLines, udpLines).Ok?
    ensures forall n :: n in RouteNets(files, res, tcpLines, udpLines).value ==> ',' !in n
  {
    var hosts := HostsOf(files).value;
    var ips := ResolvedIps(OkHosts(Outcomes(hosts, res)));
    ResolvedAllIpv4(hosts, res);
    forall n | n in RouteNets(files, res, tcpLines, udpLines).value ensures ',' !in n {
      var ip :| ip in ips && n == NetOf(ip);
      var addr := ParseIpv4(ip).value;
      Ipv4Canonical(ip, addr);
      NetOfLacksComma(addr);
    }
  }

  /** The line `gen_wg_routes` prints, for any order the set iteration takes:
      after its head it splits back into exactly the printed networks, each once. */
  lemma {:induction false} RouteOutput(files: seq<Result<seq<string>>>, res: Resolver, tcpLines: seq<string>, udpLines: seq<string>, order: seq<string>)
    requires RouteNets(files, res, tcpLines, udpLines).Ok?
    requires Enumerates(order, RouteNets(files, res, tcpLines, udpLines).value)
    ensures |order| == |RouteNets(files, res, tcpLines, udpLines).value|
    ensures order != [] ==> SplitOn(RouteLine(order)[|"AllowedIPs = "|..], ", ") == order
    ensures order == [] ==> RouteLine(order) == "AllowedIPs = "
  {
    var nets := RouteNets(files, res, tcpLines, udpLines).value;
    DistinctCard(order, nets);
    RouteNetsLackComma(files, res, tcpLines, udpLines);
    if order != [] {
      RouteLineReadsBack(order);
    }
  }

  /** A duplicate-free enumeration of a set is as long as the set is large. */
  lemma {:induction false} DistinctCard(order: seq<string>, nets: set<string>)
    requires Enumerates(order, nets)
    ensures |order| == |nets|
    decreases |order|
  {
    if order != [] {
      var last := order[|order| - 1];
      var rest := order[..|order| - 1];
      assert forall i :: 0 <= i < |rest| ==> rest[i] == order[i];
      forall i | 0 <= i < |rest| ensures rest[i] != last {
        assert rest[i] == order[i];
      }
      forall n | n in nets - {last} ensures n in rest {
        var i :| 0 <= i < |order| && order[i] == n;
        assert i != |order| - 1;
      }
      DistinctCard(rest, nets - {last});
    } else {
      assert forall n :: n in nets ==> n in order;
      assert nets == {};
    }
  }
}
