/** The hostname helpers of the resolver and the two folds it runs over DNS
    answers. The queries themselves are inputs: a `Lookup` is what one address
    lookup answered, and a `Resolver` says what every query would answer. */
module Dns {
  import opened Results
  import opened Text
  import opened Digits
  import opened Addr

  /** The URL schemes a capture-file request may use, in the order they are tried. */
  const Schemes: seq<string> := ["https://", "http://", "wss://"]

  /** `host` is what `rest` holds before its first '/': all of it when there is none. */
  predicate IsHostPart(host: string, rest: string)
  {
    host <= rest && (host == rest || rest[|host|] == '/')
  }

  /** `hostname_from_url`: the text between an accepted scheme and the first '/'. */
  function HostnameFromUrl(url: string): (r: Option<string>)
    ensures r.Some? <==> exists p :: p in Schemes && p <= url
    ensures r.Some? ==> '/' !in r.value
    ensures r.Some? ==> exists p :: p in Schemes && p <= url && IsHostPart(r.value, url[|p|..])
  {
    var stripped := StripPrefix(url, Schemes[0]).Or(StripPrefix(url, Schemes[1])).Or(StripPrefix(url, Schemes[2]));
    match stripped
    case None => None
    case Some(rest) =>
      var p := if Schemes[0] <= url then Schemes[0] else if Schemes[1] <= url then Schemes[1] else Schemes[2];
      assert p in Schemes && p <= url && rest == url[|p|..];
      var host := Split(rest, '/')[0];
      SplitPiecesLackSep(rest, '/');
      SplitFirstPiece(rest, '/');
      Some(host)
  }

  /** Conversely, every URL made of a scheme, a host without '/' and a path that
      is empty or starts with '/' yields that host. */
  lemma {:induction false} HostnameFromUrlOf(p: string, host: string, path: string)
    requires p in Schemes && '/' !in host && (path == [] || path[0] == '/')
    ensures HostnameFromUrl(p + host + path) == Some(host)
  {
    var url := p + host + path;
    assert url[|p|..] == host + path;
    if p == Schemes[1] {
      assert url[4] == ':' != Schemes[0][4];
    } else if p == Schemes[2] {
      assert url[0] == 'w';
    }
    if path == [] {
      assert host + path == host;
      SplitNoSep(host, '/');
    } else {
      assert host + path == host + ['/'] + path[1..];
      SplitCons(host, path[1..], '/');
    }
  }

  /** The accepted cases of the unit tests of `hostname_from_url`. */
  lemma {:induction false} HostnameFromUrlExamples()
    ensures HostnameFromUrl("https://x.y") == Some("x.y")
    ensures HostnameFromUrl("https://x.y/") == Some("x.y")
    ensures HostnameFromUrl("http://x.y") == Some("x.y")
    ensures HostnameFromUrl("http://x.y/") == Some("x.y")
    ensures HostnameFromUrl("http://x.y/aksdh/akjsdh") == Some("x.y")
    ensures HostnameFromUrl("http://x.y//s//h///?sdf=ass") == Some("x.y")
  {
    assert "https://x.y" == "https://" + "x.y" + "";
    assert "https://x.y/" == "https://" + "x.y" + "/";
    assert "http://x.y" == "http://" + "x.y" + "";
    assert "http://x.y/" == "http://" + "x.y" + "/";
    assert "http://x.y/aksdh/akjsdh" == "http://" + "x.y" + "/aksdh/akjsdh";
    assert "http://x.y//s//h///?sdf=ass" == "http://" + "x.y" + "//s//h///?sdf=ass";
    HostnameFromUrlOf("https://", "x.y", "");
    HostnameFromUrlOf("https://", "x.y", "/");
    HostnameFromUrlOf("http://", "x.y", "");
    HostnameFromUrlOf("http://", "x.y", "/");
    HostnameFromUrlOf("http://", "x.y", "/aksdh/akjsdh");
    HostnameFromUrlOf("http://", "x.y", "//s//h///?sdf=ass");
  }

  /** The rejected cases of the unit tests of `hostname_from_url`. */
  lemma {:induction false} HostnameFromUrlRejects()
    ensures HostnameFromUrl("rtsp://x.y") == None && HostnameFromUrl("rtsp://x.y/") == None
    ensures HostnameFromUrl("x.y") == None && HostnameFromUrl("x.y/") == None
  {
    assert forall p :: p in Schemes ==> p[0] == 'h' || p[0] == 'w';
    assert "rtsp://x.y"[0] == "rtsp://x.y/"[0] == 'r';
    assert "x.y"[0] == "x.y/"[0] == 'x';
  }

  /** `domain_from_host`: the last two dot-separated labels of a hostname, or an
      error when a label is empty or there is only one. */
  function DomainFromHost(h: string): Result<string>
  {
    var labels := Split(h, '.');
    if exists i :: 0 <= i < |labels| && labels[i] == [] then Err(TooShortComponent(h))
    else if |labels| < 2 then Err(TooShortHostname(h))
    else Ok(Join(labels[|labels| - 2..], "."))
  }

  /** What `domain_from_host` promises: the errors exactly when a label is empty or
      the name has a single label; otherwise a domain made of the name's last two
      labels, which ends the name at a label boundary and is its own domain. */
  lemma {:induction false} DomainFromHostSpec(h: string)
    ensures var labels := Split(h, '.');
      && (DomainFromHost(h) == Err(TooShortComponent(h)) <==>
            exists i :: 0 <= i < |labels| && labels[i] == [])
      && (DomainFromHost(h) == Err(TooShortHostname(h)) <==>
            |labels| == 1 && labels[0] != [])
      && (DomainFromHost(h).Ok? ==>
            var d := DomainFromHost(h).value;
            && Split(d, '.') == labels[|labels| - 2..]
            && |d| <= |h| && h[|h| - |d|..] == d
            && (|d| < |h| ==> h[|h| - |d| - 1] == '.')
            && DomainFromHost(d) == Ok(d))
  {
    var labels := Split(h, '.');
    if DomainFromHost(h).Ok? {
      var n := |labels|;
      var last := labels[n - 2..];
      var d := Join(last, ".");
      SplitPiecesLackSep(h, '.');
      SplitOnJoin(last, ".");
      JoinSplitOn(h, ".");
      if n > 2 {
        assert labels == labels[..n - 2] + last;
        JoinAppend(labels[..n - 2], last, ".");
        assert h == Join(labels[..n - 2], ".") + "." + d;
      } else {
        assert labels == last;
      }
      assert Split(d, '.') == last;
      assert last[|last| - 2..] == last;
    }
  }

  /** `domain_from_host` on a name given by its labels. */
  lemma {:induction false} DomainFromHostOfLabels(labels: seq<string>)
    requires |labels| >= 1 && forall i :: 0 <= i < |labels| ==> '.' !in labels[i]
    ensures DomainFromHost(Join(labels, ".")) ==
      if exists i :: 0 <= i < |labels| && labels[i] == [] then Err(TooShortComponent(Join(labels, ".")))
      else if |labels| < 2 then Err(TooShortHostname(Join(labels, ".")))
      else Ok(Join(labels[|labels| - 2..], "."))
  {
    SplitOnJoin(labels, ".");
  }

  /** A name of two non-empty labels is its own domain. */
  lemma {:induction false} DomainFromHostTwoLabels(x: string, y: string)
    requires x != [] && y != [] && '.' !in x && '.' !in y
    ensures DomainFromHost(x + "." + y) == Ok(x + "." + y)
  {
    SplitNoSep(y, '.');
    SplitCons(x, y, '.');
    assert x + "." + y == x + ['.'] + y;
    assert Join([x, y], ".") == x + "." + Join([y], ".");
  }

  /** A name of three non-empty labels has its last two as its domain. */
  lemma {:induction false} DomainFromHostThreeLabels(x: string, y: string, z: string)
    requires x != [] && y != [] && z != [] && '.' !in x && '.' !in y && '.' !in z
    ensures DomainFromHost(x + "." + y + "." + z) == Ok(y + "." + z)
  {
    SplitNoSep(z, '.');
    SplitCons(y, z, '.');
    assert y + "." + z == y + ['.'] + z;
    SplitCons(x, y + "." + z, '.');
    assert x + "." + y + "." + z == x + ['.'] + (y + "." + z);
    var labels := [x, y, z];
    assert labels[1..] == [y, z];
    assert Join([y, z], ".") == y + "." + Join([z], ".");
  }

  /** A name with an empty label between two dots is rejected. */
  lemma {:induction false} DomainFromHostDoubleDot(a: string, b: string)
    ensures DomainFromHost(a + ".." + b) == Err(TooShortComponent(a + ".." + b))
  {
    var inner := ['.'] + b;
    SplitAppend([], b, '.');
    SplitNoSep([], '.');
    assert [] + ['.'] + b == inner;
    SplitAppend(a, inner, '.');
    assert a + ".." + b == a + ['.'] + inner;
    assert Split(a + ".." + b, '.')[|Split(a, '.')|] == [];
  }

  /** A name that starts with a dot is rejected. */
  lemma {:induction false} DomainFromHostLeadingDot(b: string)
    ensures DomainFromHost("." + b) == Err(TooShortComponent("." + b))
  {
    SplitAppend([], b, '.');
    SplitNoSep([], '.');
    assert "." + b == [] + ['.'] + b;
    assert Split("." + b, '.')[0] == [];
  }

  /** A name that ends with a dot is rejected. */
  lemma {:induction false} DomainFromHostTrailingDot(a: string)
    ensures DomainFromHost(a + ".") == Err(TooShortComponent(a + "."))
  {
    SplitAppend(a, [], '.');
    SplitNoSep([], '.');
    assert a + "." == a + ['.'] + [];
    assert Split(a + ".", '.')[|Split(a, '.')|] == [];
  }

  /** The accepted cases of the unit tests of `domain_from_host`. */
  lemma {:induction false} DomainFromHostExamples()
    ensures DomainFromHost("x.y") == Ok("x.y")
    ensures DomainFromHost("x.y.z") == Ok("y.z")
  {
    assert "x.y" == "x" + "." + "y";
    DomainFromHostTwoLabels("x", "y");
    assert "x.y.z" == "x" + "." + "y" + "." + "z";
    assert "y.z" == "y" + "." + "z";
    DomainFromHostThreeLabels("x", "y", "z");
  }

  /** The rejected cases of the unit tests of `domain_from_host`: too few labels. */
  lemma {:induction false} DomainFromHostRejectsShort()
    ensures DomainFromHost("").Err? && DomainFromHost("x").Err?
  {
    SplitNoSep("", '.');
    SplitNoSep("x", '.');
  }

  /** The rejected cases of the unit tests of `domain_from_host`: an empty label inside. */
  lemma {:induction false} DomainFromHostRejectsInner()
    ensures DomainFromHost("x..").Err? && DomainFromHost("..x").Err? && DomainFromHost("x..y").Err?
  {
    assert "x.." == "x." + ".";
    DomainFromHostTrailingDot("x.");
    assert "..x" == "." + ".x";
    DomainFromHostLeadingDot(".x");
    assert "x..y" == "x" + ".." + "y";
    DomainFromHostDoubleDot("x", "y");
  }

  /** The rejected cases of the unit tests of `domain_from_host`: an empty label at an end. */
  lemma {:induction false} DomainFromHostRejectsEnds()
    ensures DomainFromHost("x.y.").Err? && DomainFromHost(".x.y").Err?
  {
    assert "x.y." == "x.y" + ".";
    DomainFromHostTrailingDot("x.y");
    assert ".x.y" == "." + "x.y";
    DomainFromHostLeadingDot("x.y");
  }

  /** The rejected cases of the unit tests of `domain_from_host`: empty labels at both ends. */
  lemma {:induction false} DomainFromHostRejectsBothEnds()
    ensures DomainFromHost(".x.y.").Err? && DomainFromHost(".xxxx.yyy.").Err?
  {
    assert ".x.y." == "." + "x.y.";
    DomainFromHostLeadingDot("x.y.");
    assert ".xxxx.yyy." == "." + "xxxx.yyy.";
    DomainFromHostLeadingDot("xxxx.yyy.");
  }

  /** `discard_port`: the text before the first ':', or all of it when there is none. */
  function DiscardPort(s: string): (r: string)
    ensures ':' !in r && r <= s
    ensures ':' in s ==> |r| < |s| && s[|r|] == ':'
    ensures ':' !in s ==> r == s
  {
    match SplitOnce(s, ':')
    case Some((before, _)) => before
    case None => s
  }

  /** The cases of the unit tests of `discard_port`. */
  lemma {:induction false} DiscardPortExamples()
    ensures DiscardPort("") == "" && DiscardPort("noport") == "noport"
    ensures DiscardPort("a.b.c:4443") == "a.b.c"
  {
    SplitOnceAt("a.b.c", "4443", ':');
    assert "a.b.c:4443" == "a.b.c" + [':'] + "4443";
  }

  /** Stripping the port twice is stripping it once. */
  lemma {:induction false} DiscardPortIdempotent(s: string)
    ensures DiscardPort(DiscardPort(s)) == DiscardPort(s)
  {
  }

  /** `hostname_is_ip`: the address a literal dotted-quad hostname names. */
  function HostnameIsIp(s: string): (r: Option<Ipv4Addr>)
    ensures r.Some? ==> s == FormatIpv4(r.value)
    ensures r.None? ==> forall ip :: s != FormatIpv4(ip)
  {
    var r := ParseIpv4(s);
    if r.Some? then Ipv4Canonical(s, r.value); r
    else
      assert forall ip :: s != FormatIpv4(ip) by {
        forall ip ensures s != FormatIpv4(ip) {
          FormatIpv4ReadsBack(ip);
        }
      }
      r
  }

  /** The accepted case of the unit tests of `hostname_is_ip`. */
  lemma {:induction false} HostnameIsIpAccepts()
    ensures HostnameIsIp("10.1.2.3") == Some(Ipv4Addr(10, 1, 2, 3))
  {
    var ip := Ipv4Addr(10, 1, 2, 3);
    assert Dec(1) == "1" && Dec(2) == "2" && Dec(3) == "3" && Dec(0) == "0";
    assert Dec(10) == Dec(1) + "0" == "10";
    assert Octets(ip) == ["10", "1", "2", "3"];
    assert Join(["10", "1", "2", "3"], ".") == "10.1.2.3";
    FormatIpv4ReadsBack(ip);
  }

  /** The rejected case of the unit tests of `hostname_is_ip`. */
  lemma {:induction false} HostnameIsIpRejects()
    ensures HostnameIsIp("a.b.c.d") == None
  {
    assert Join(["a", "b", "c", "d"], ".") == "a.b.c.d";
    SplitOnJoin(["a", "b", "c", "d"], ".");
    assert ParseOctet("a") == None;
  }

  /** What one address lookup (`lookup_ip`) answered: its IPv4 addresses in answer
      order, or a failure. */
  datatype Lookup = Answer(addrs: seq<Ipv4Addr>) | LookupFailed

  /** An answer that gives a nameserver address. */
  predicate Usable(x: Lookup)
  {
    x.Answer? && |x.addrs| > 0
  }

  /** The error the nameserver fold reports for an answer that gives no address. */
  function LookupError(x: Lookup): Error
    requires !Usable(x)
  {
    if x.LookupFailed? then NameserverLookupFailed else EmptyNameserverAnswer
  }

  /** The nameserver addresses of one domain, folded over the answers in order. */
  function NameserverIps(lookups: seq<Lookup>): Result<set<string>>
  {
    if |lookups| == 0 then Ok({})
    else
      var n := |lookups| - 1;
      var acc :- NameserverIps(lookups[..n]);
      var x := lookups[n];
      if x.LookupFailed? then Err(NameserverLookupFailed)
      else if |x.addrs| == 0 then Err(EmptyNameserverAnswer)
      else Ok(acc + {FormatIpv4(x.addrs[0])})
  }

  /** `s` is the printed first address of one of the answers. */
  predicate IsFirstAddrOf(s: string, lookups: seq<Lookup>)
  {
    exists i :: 0 <= i < |lookups| && Usable(lookups[i]) && s == FormatIpv4(lookups[i].addrs[0])
  }

  /** `k` is the position of the first answer that gives no address. */
  predicate FirstUnusableAt(lookups: seq<Lookup>, k: nat)
  {
    k < |lookups| && !Usable(lookups[k]) && forall i :: 0 <= i < k ==> Usable(lookups[i])
  }

  /** The fold over one more answer, in terms of the fold over the earlier ones. */
  lemma {:induction false} NameserverIpsLast(lookups: seq<Lookup>)
    requires |lookups| > 0
    ensures var prev := NameserverIps(lookups[..|lookups| - 1]);
      var x := lookups[|lookups| - 1];
      NameserverIps(lookups) ==
        if prev.Err? then prev
        else if !Usable(x) then Err(LookupError(x))
        else Ok(prev.value + {FormatIpv4(x.addrs[0])})
  {
  }

  /** The nameserver fold succeeds exactly when every answer gives an address. */
  lemma {:induction false} NameserverIpsOk(lookups: seq<Lookup>)
    ensures NameserverIps(lookups).Ok? <==> forall i :: 0 <= i < |lookups| ==> Usable(lookups[i])
  {
    if |lookups| > 0 {
      var n := |lookups| - 1;
      NameserverIpsOk(lookups[..n]);
      NameserverIpsLast(lookups);
      assert forall i :: 0 <= i < n ==> lookups[..n][i] == lookups[i];
    }
  }

  /** On success the fold holds exactly the first address of every answer, printed,
      so no more strings than answers. */
  lemma {:induction false} NameserverIpsMembers(lookups: seq<Lookup>)
    requires NameserverIps(lookups).Ok?
    ensures forall s :: s in NameserverIps(lookups).value <==> IsFirstAddrOf(s, lookups)
    ensures |NameserverIps(lookups).value| <= |lookups|
  {
    if |lookups| > 0 {
      var n := |lookups| - 1;
      var prefix := lookups[..n];
      NameserverIpsLast(lookups);
      var acc := NameserverIps(prefix).value;
      NameserverIpsMembers(prefix);
      var x := lookups[n];
      var s0 := FormatIpv4(x.addrs[0]);
      forall s ensures s in acc + {s0} <==> IsFirstAddrOf(s, lookups) {
        if s in acc {
          var i :| 0 <= i < n && Usable(prefix[i]) && s == FormatIpv4(prefix[i].addrs[0]);
          assert lookups[i] == prefix[i];
        }
        if s == s0 {
          assert Usable(lookups[n]);
        }
        if IsFirstAddrOf(s, lookups) {
          var i :| 0 <= i < |lookups| && Usable(lookups[i]) && s == FormatIpv4(lookups[i].addrs[0]);
          if i < n {
            assert lookups[i] == prefix[i];
            assert IsFirstAddrOf(s, prefix);
          } else {
            assert i == n;
            assert s == s0;
          }
        }
      }
    }
  }

  /** On failure the fold reports the error of the first answer that gives no address. */
  lemma {:induction false} NameserverIpsErr(lookups: seq<Lookup>)
    requires NameserverIps(lookups).Err?
    ensures exists k: nat :: FirstUnusableAt(lookups, k) && NameserverIps(lookups).error == LookupError(lookups[k])
  {
    var n := |lookups| - 1;
    var prefix := lookups[..n];
    NameserverIpsLast(lookups);
    assert forall i :: 0 <= i < n ==> prefix[i] == lookups[i];
    if NameserverIps(prefix).Err? {
      NameserverIpsErr(prefix);
      var k: nat :| FirstUnusableAt(prefix, k) && NameserverIps(prefix).error == LookupError(prefix[k]);
      assert FirstUnusableAt(lookups, k);
    } else {
      NameserverIpsOk(prefix);
      assert FirstUnusableAt(lookups, n);
    }
  }

  /** Once the fold has failed, the answers after the failure change nothing. */
  lemma {:induction false} NameserverIpsErrSticks(lookups: seq<Lookup>, j: nat, e: Error)
    requires j <= |lookups| && NameserverIps(lookups[..j]) == Err(e)
    ensures NameserverIps(lookups) == Err(e)
    decreases |lookups| - j
  {
    if j < |lookups| {
      var prefix := lookups[..j + 1];
      assert prefix[..j] == lookups[..j];
      NameserverIpsLast(prefix);
      NameserverIpsErrSticks(lookups, j + 1, e);
    } else {
      assert lookups[..j] == lookups;
    }
  }

  /** The fold of `nameservers_from_host` over the answers for its nameserver hostnames. */
  method CollectNameserverIps(lookups: seq<Lookup>) returns (r: Result<set<string>>)
    ensures r == NameserverIps(lookups)
  {
    var acc: set<string> := {};
    for i := 0 to |lookups|
      invariant NameserverIps(lookups[..i]) == Ok(acc)
    {
      var x := lookups[i];
      assert lookups[..i + 1][..i] == lookups[..i];
      if x.LookupFailed? {
        NameserverIpsErrSticks(lookups, i + 1, NameserverLookupFailed);
        return Err(NameserverLookupFailed);
      }
      if |x.addrs| == 0 {
        NameserverIpsErrSticks(lookups, i + 1, EmptyNameserverAnswer);
        return Err(EmptyNameserverAnswer);
      }
      acc := acc + {FormatIpv4(x.addrs[0])};
    }
    assert lookups[..|lookups|] == lookups;
    return Ok(acc);
  }

  /** Every string names an IPv4 address. */
  predicate AllIpv4(ss: set<string>)
  {
    forall s :: s in ss ==> ParseIpv4(s).Some?
  }

  function ParsedIps(ss: set<string>): set<Ipv4Addr>
    requires AllIpv4(ss)
  {
    set s | s in ss :: ParseIpv4(s).value
  }

  /** The public resolvers every host lookup also asks. */
  const GlobalDns: seq<Ipv4Addr> := [Ipv4Addr(8, 8, 8, 8), Ipv4Addr(1, 1, 1, 1), Ipv4Addr(9, 9, 9, 9)]

  predicate Distinct<T(==)>(s: seq<T>)
  {
    forall j, k :: 0 <= j < k < |s| ==> s[j] != s[k]
  }

  /** Two strings that read as the same address are the same string. */
  lemma {:induction false} ParseIpv4Injective(x: string, y: string)
    requires ParseIpv4(x).Some? && ParseIpv4(x) == ParseIpv4(y)
    ensures x == y
  {
    Ipv4Canonical(x, ParseIpv4(x).value);
    Ipv4Canonical(y, ParseIpv4(x).value);
  }

  /** Reading one more nameserver string adds one new address. */
  lemma {:induction false} ParsedIpsInsert(done: set<string>, x: string)
    requires AllIpv4(done) && x !in done && ParseIpv4(x).Some?
    ensures ParseIpv4(x).value !in ParsedIps(done)
    ensures ParsedIps(done + {x}) == ParsedIps(done) + {ParseIpv4(x).value}
  {
    if ParseIpv4(x).value in ParsedIps(done) {
      var y :| y in done && ParseIpv4(y).value == ParseIpv4(x).value;
      ParseIpv4Injective(x, y);
    }
  }

  /** `servers` lists the addresses the strings `ips` name, each exactly once. */
  ghost predicate ListsServers(servers: seq<Ipv4Addr>, ips: set<string>)
  {
    && AllIpv4(ips)
    && |servers| == |ips|
    && (forall a :: a in servers <==> a in ParsedIps(ips))
    && Distinct(servers)
  }

  /** One step of the server-list fold keeps its invariant. */
  lemma {:induction false} ServerListStep(servers: seq<Ipv4Addr>, ips: set<string>, x: string)
    requires ListsServers(servers, ips) && x !in ips && ParseIpv4(x).Some?
    ensures ListsServers(servers + [ParseIpv4(x).value], ips + {x})
  {
    ParsedIpsInsert(ips, x);
  }

  /** The server-list fold of `resolve_host_multiple`: the public resolvers, then
      every nameserver string read as an IPv4 address, each once, in the set's
      iteration order; or the error naming an entry that is not an address. */
  method ServerList(nameserverIps: set<string>) returns (r: Result<seq<Ipv4Addr>>)
    ensures r.Ok? ==> (|r.value| >= |GlobalDns| && r.value[..|GlobalDns|] == GlobalDns &&
                       ListsServers(r.value[|GlobalDns|..], nameserverIps))
    ensures r.Ok? ==> AllIpv4(nameserverIps) && (set a | a in r.value) == Servers(nameserverIps)
    ensures r.Err? ==> (r.error.BadNameserverAddr? && r.error.addr in nameserverIps &&
                        ParseIpv4(r.error.addr).None?)
  {
    var acc := GlobalDns;
    ghost var tail: seq<Ipv4Addr> := [];
    var rest := nameserverIps;
    ghost var done: set<string> := {};
    while rest != {}
      invariant rest <= nameserverIps && done == nameserverIps - rest
      invariant acc == GlobalDns + tail
      invariant ListsServers(tail, done)
      decreases rest
    {
      var x :| x in rest;
      var parsed := ParseIpv4(x);
      if parsed.None? {
        return Err(BadNameserverAddr(x));
      }
      ServerListStep(tail, done, x);
      acc := acc + [parsed.value];
      tail := tail + [parsed.value];
      rest := rest - {x};
      done := done + {x};
    }
    assert acc[|GlobalDns|..] == tail;
    ServerSet(tail, nameserverIps);
    return Ok(acc);
  }

  /** The public resolvers followed by a listing of the nameservers hold exactly
      the servers a host lookup is sent to. */
  lemma {:induction false} ServerSet(tail: seq<Ipv4Addr>, ips: set<string>)
    requires ListsServers(tail, ips)
    ensures (set a | a in GlobalDns + tail) == Servers(ips)
  {
    assert forall a :: a in GlobalDns + tail <==> a in GlobalDns || a in tail;
  }

  /** The set of servers a host lookup is sent to. */
  function Servers(nameserverIps: set<string>): set<Ipv4Addr>
    requires AllIpv4(nameserverIps)
  {
    (set a | a in GlobalDns) + ParsedIps(nameserverIps)
  }

  /** What the network answers, as inputs: for a domain, the address lookups of
      its nameserver hostnames in the order the NS query listed them; for a host
      and a set of servers, the address lookup of the host against them. */
  datatype Resolver = Resolver(
    nameserverLookups: string -> seq<Lookup>,
    hostLookup: (string, set<Ipv4Addr>) -> Lookup)

  /** `nameservers_from_host`: the domain of the host, then the nameserver addresses
      of that domain; an error of either step is the result. */
  function NameserversFromHost(host: string, res: Resolver): (r: Result<set<string>>)
    ensures DomainFromHost(host).Err? ==> r == Err(DomainFromHost(host).error)
    ensures DomainFromHost(host).Ok? ==> r == NameserverIps(res.nameserverLookups(DomainFromHost(host).value))
    ensures r.Ok? ==> AllIpv4(r.value)
  {
    var domain :- DomainFromHost(host);
    var ips := NameserverIps(res.nameserverLookups(domain));
    if ips.Ok? then
      assert AllIpv4(ips.value) by {
        NameserverIpsMembers(res.nameserverLookups(domain));
        forall s | s in ips.value ensures ParseIpv4(s).Some? {
          var lookups := res.nameserverLookups(domain);
          var i :| 0 <= i < |lookups| && Usable(lookups[i]) && s == FormatIpv4(lookups[i].addrs[0]);
          FormatIpv4ReadsBack(lookups[i].addrs[0]);
        }
      }
      ips
    else ips
  }

  /** The printed addresses of one answer: exactly the answered addresses, each
      read back by the parser. */
  function Printed(addrs: seq<Ipv4Addr>): (ips: set<string>)
    ensures AllIpv4(ips)
    ensures forall ip :: FormatIpv4(ip) in ips <==> ip in addrs
    ensures forall s :: s in ips ==> exists ip :: ip in addrs && s == FormatIpv4(ip)
  {
    var ips := set a | a in addrs :: FormatIpv4(a);
    assert AllIpv4(ips) by {
      forall s | s in ips ensures ParseIpv4(s).Some? {
        var a :| a in addrs && s == FormatIpv4(a);
        FormatIpv4ReadsBack(a);
      }
    }
    assert forall ip :: FormatIpv4(ip) in ips ==> ip in addrs by {
      forall ip | FormatIpv4(ip) in ips ensures ip in addrs {
        var a :| a in addrs && FormatIpv4(a) == FormatIpv4(ip);
        FormatIpv4Injective(a, ip);
      }
    }
    ips
  }

  /** What the lookup of `host` against the public resolvers and the nameservers answers. */
  function HostAnswer(host: string, nameserverIps: set<string>, res: Resolver): Lookup
    requires AllIpv4(nameserverIps)
  {
    res.hostLookup(host, Servers(nameserverIps))
  }

  /** `resolve_host_multiple`: an error naming an entry that is not an address;
      otherwise the printed addresses the lookup against the server set answers,
      and no address at all when that lookup fails. */
  ghost function ResolveHostMultiple(host: string, nameserverIps: set<string>, res: Resolver): (r: Result<set<string>>)
    ensures r.Err? <==> !AllIpv4(nameserverIps)
    ensures r.Err? ==> r.error.BadNameserverAddr? && r.error.addr in nameserverIps && ParseIpv4(r.error.addr).None?
    ensures r.Ok? ==> AllIpv4(r.value)
    ensures r.Ok? && HostAnswer(host, nameserverIps, res).LookupFailed? ==> r.value == {}
    ensures r.Ok? && HostAnswer(host, nameserverIps, res).Answer? ==>
      forall ip :: FormatIpv4(ip) in r.value <==> ip in HostAnswer(host, nameserverIps, res).addrs
  {
    if !AllIpv4(nameserverIps) then
      var bad :| bad in nameserverIps && ParseIpv4(bad).None?;
      Err(BadNameserverAddr(bad))
    else
      match HostAnswer(host, nameserverIps, res)
      case LookupFailed => Ok({})
      case Answer(addrs) => Ok(Printed(addrs))
  }
}
