/** IPv4 addresses and networks: Rust's `Ipv4Addr` parser, printer and address
    classes, and the prefix containment test of the CIDR library. */
module Addr {
  import opened Results
  import opened Text
  import opened Digits

  type Port = x: int | 0 <= x < 0x1_0000

  type PrefixLen = x: int | 0 <= x <= 32

  /** The four octets of an address, most significant first (`Ipv4Addr::new(a, b, c, d)`). */
  datatype Ipv4Addr = Ipv4Addr(a: Byte, b: Byte, c: Byte, d: Byte)

  /** One octet as Rust's IPv4 parser reads it: one to three decimal digits, no
      superfluous leading zero, at most 255. */
  function ParseOctet(t: string): Option<Byte>
  {
    if |t| <= 3 && IsCanonicalDec(t) && ValueIn(t, 10) < 0x100 then Some(ValueIn(t, 10))
    else None
  }

  /** An octet the parser accepts is written the way `Dec` writes its value. */
  lemma {:induction false} ParseOctetCanonical(t: string)
    requires ParseOctet(t).Some?
    ensures t == Dec(ParseOctet(t).value)
  {
    DecOfCanonical(t);
  }

  /** `Ipv4Addr::from_str`: exactly four octets separated by '.'. */
  function ParseIpv4(s: string): Option<Ipv4Addr>
  {
    ParseQuad(Split(s, '.'))
  }

  function ParseQuad(parts: seq<string>): Option<Ipv4Addr>
  {
    if |parts| != 4 then None
    else
      match (ParseOctet(parts[0]), ParseOctet(parts[1]), ParseOctet(parts[2]), ParseOctet(parts[3]))
      case (Some(a), Some(b), Some(c), Some(d)) => Some(Ipv4Addr(a, b, c, d))
      case _ => None
  }

  function Octets(ip: Ipv4Addr): (parts: seq<string>)
    ensures |parts| == 4
    ensures forall i :: 0 <= i < 4 ==> 1 <= |parts[i]| <= 3 && AllDigitsIn(parts[i], 10)
  {
    DecByteLength(ip.a);
    DecByteLength(ip.b);
    DecByteLength(ip.c);
    DecByteLength(ip.d);
    [Dec(ip.a), Dec(ip.b), Dec(ip.c), Dec(ip.d)]
  }

  lemma {:induction false} ParseOctetOfDec(n: Byte)
    ensures ParseOctet(Dec(n)) == Some(n)
  {
    DecByteLength(n);
  }

  lemma {:induction false} DigitsLack(t: string, c: char)
    requires AllDigitsIn(t, 10) && !IsDecDigit(c)
    ensures c !in t
  {
  }

  /** `Ipv4Addr::to_string`: dotted-quad decimal. */
  function FormatIpv4(ip: Ipv4Addr): string
  {
    Join(Octets(ip), ".")
  }

  /** The parser reads a printed address back. */
  lemma {:induction false} FormatIpv4ReadsBack(ip: Ipv4Addr)
    ensures ParseIpv4(FormatIpv4(ip)) == Some(ip)
  {
    var parts := Octets(ip);
    DigitsLack(parts[0], '.');
    DigitsLack(parts[1], '.');
    DigitsLack(parts[2], '.');
    DigitsLack(parts[3], '.');
    SplitOnJoin(parts, ".");
    ParseOctetOfDec(ip.a);
    ParseOctetOfDec(ip.b);
    ParseOctetOfDec(ip.c);
    ParseOctetOfDec(ip.d);
  }

  /** Distinct addresses print differently. */
  lemma {:induction false} FormatIpv4Injective(x: Ipv4Addr, y: Ipv4Addr)
    requires FormatIpv4(x) == FormatIpv4(y)
    ensures x == y
  {
    FormatIpv4ReadsBack(x);
    FormatIpv4ReadsBack(y);
  }

  /** Printed addresses consist of decimal digits and dots only. */
  lemma {:induction false} FormatIpv4Lacks(ip: Ipv4Addr, c: char)
    requires c != '.' && !IsDecDigit(c)
    ensures c !in FormatIpv4(ip)
  {
    var parts := Octets(ip);
    forall i | 0 <= i < |parts| ensures c !in parts[i] {
      DigitsLack(parts[i], c);
    }
    JoinLacks(parts, ".", c);
  }

  /** The parser accepts only what the printer writes: a string and an address
      determine each other. */
  lemma {:induction false} Ipv4Canonical(s: string, ip: Ipv4Addr)
    ensures ParseIpv4(s) == Some(ip) <==> s == FormatIpv4(ip)
  {
    FormatIpv4ReadsBack(ip);
    if ParseIpv4(s) == Some(ip) {
      var parts := Split(s, '.');
      ParseOctetCanonical(parts[0]);
      ParseOctetCanonical(parts[1]);
      ParseOctetCanonical(parts[2]);
      ParseOctetCanonical(parts[3]);
      JoinSplitOn(s, ".");
      assert Split(s, '.') == Octets(ip);
    }
  }

  /** The address as the 32-bit number it stands for. */
  function ToU32(ip: Ipv4Addr): nat
  {
    ((ip.a * 0x100 + ip.b) * 0x100 + ip.c) * 0x100 + ip.d
  }

  function Pow2(n: nat): (p: nat)
    ensures p >= 1
  {
    if n == 0 then 1 else 2 * Pow2(n - 1)
  }

  /** A prefix in the notation of section 3.1 of RFC 4632: a base address and the
      number of leading bits that are significant. */
  datatype Ipv4Net = Ipv4Net(base: Ipv4Addr, len: PrefixLen)

  /** `Ipv4Network::contains`: the first `len` bits of `ip` are those of the base. */
  predicate Contains(net: Ipv4Net, ip: Ipv4Addr)
  {
    ToU32(ip) / Pow2(32 - net.len) == ToU32(net.base) / Pow2(32 - net.len)
  }

  /** The CIDR text "a.b.c.d/len" read as a network (the form `net_from_ip` builds). */
  function ParseNet(s: string): Option<Ipv4Net>
  {
    match SplitOnce(s, '/')
    case None => None
    case Some((addr, len)) =>
      match (ParseIpv4(addr), FromStrRadixU8(len, 10))
      case (Some(base), Some(n)) => if n <= 32 then Some(Ipv4Net(base, n)) else None
      case _ => None
  }

  lemma {:induction false} DecReadsBack(n: Byte)
    ensures FromStrRadixU8(Dec(n), 10) == Some(n)
  {
  }

  /** The CIDR text of a network. */
  function FormatNet(net: Ipv4Net): string
  {
    FormatIpv4(net.base) + ['/'] + Dec(net.len)
  }

  /** The CIDR parser reads a printed network back. */
  lemma {:induction false} FormatNetReadsBack(net: Ipv4Net)
    ensures ParseNet(FormatNet(net)) == Some(net)
  {
    FormatIpv4Lacks(net.base, '/');
    SplitOnceAt(FormatIpv4(net.base), Dec(net.len), '/');
    DecReadsBack(net.len);
    FormatIpv4ReadsBack(net.base);
  }

  lemma {:induction false} MulAtLeast(e: nat, k: nat)
    requires e >= 1
    ensures e * k >= k
  {
    assert e * k == (e - 1) * k + k;
  }

  lemma {:induction false} DivMod(q: nat, r: nat, k: nat)
    requires 0 <= r < k
    ensures (q * k + r) / k == q && (q * k + r) % k == r
  {
    var x := q * k + r;
    var z, m := x / k, x % k;
    assert x == z * k + m && 0 <= m < k;
    if z > q {
      var e := z - q;
      assert z * k == q * k + e * k;
      MulAtLeast(e, k);
    } else if z < q {
      var e := q - z;
      assert q * k == z * k + e * k;
      MulAtLeast(e, k);
    }
  }

  lemma {:induction false} Pow2Values()
    ensures Pow2(0) == 1 && Pow2(8) == 0x100 && Pow2(16) == 0x1_0000
    ensures Pow2(20) == 0x10_0000 && Pow2(24) == 0x100_0000
  {
  }

  /** The first `8`, `12`, `16` and `32` bits of an address, octet by octet. */
  lemma {:induction false} Prefixes(ip: Ipv4Addr)
    ensures ToU32(ip) / Pow2(24) == ip.a
    ensures ToU32(ip) / Pow2(20) == ip.a * 16 + ip.b / 16
    ensures ToU32(ip) / Pow2(16) == ip.a * 0x100 + ip.b
    ensures ToU32(ip) / Pow2(0) == ToU32(ip)
  {
    Pow2Values();
    var low16 := ip.c * 0x100 + ip.d;
    assert ToU32(ip) == (ip.a * 0x100 + ip.b) * 0x1_0000 + low16;
    DivMod(ip.a * 0x100 + ip.b, low16, 0x1_0000);
    assert ToU32(ip) == ip.a * 0x100_0000 + (ip.b * 0x1_0000 + low16);
    DivMod(ip.a, ip.b * 0x1_0000 + low16, 0x100_0000);
    assert ToU32(ip) == (ip.a * 16 + ip.b / 16) * 0x10_0000 + ((ip.b % 16) * 0x1_0000 + low16);
    DivMod(ip.a * 16 + ip.b / 16, (ip.b % 16) * 0x1_0000 + low16, 0x10_0000);
  }

  /** Distinct addresses are distinct numbers. */
  lemma {:induction false} ToU32Injective(x: Ipv4Addr, y: Ipv4Addr)
    requires ToU32(x) == ToU32(y)
    ensures x == y
  {
    DivMod((x.a * 0x100 + x.b) * 0x100 + x.c, x.d, 0x100);
    DivMod((y.a * 0x100 + y.b) * 0x100 + y.c, y.d, 0x100);
    DivMod(x.a * 0x100 + x.b, x.c, 0x100);
    DivMod(y.a * 0x100 + y.b, y.c, 0x100);
    DivMod(x.a, x.b, 0x100);
    DivMod(y.a, y.b, 0x100);
  }

  /** A /16 holds exactly the addresses that share the first two octets of its base. */
  lemma {:induction false} Slash16Contains(base: Ipv4Addr, ip: Ipv4Addr)
    ensures Contains(Ipv4Net(base, 16), ip) <==> ip.a == base.a && ip.b == base.b
  {
    Prefixes(ip);
    Prefixes(base);
    if ip.a * 0x100 + ip.b == base.a * 0x100 + base.b {
      DivMod(ip.a, ip.b, 0x100);
      DivMod(base.a, base.b, 0x100);
    }
  }

  /** A /8 holds exactly the addresses that share the first octet of its base. */
  lemma {:induction false} Slash8Contains(base: Ipv4Addr, ip: Ipv4Addr)
    ensures Contains(Ipv4Net(base, 8), ip) <==> ip.a == base.a
  {
    Prefixes(ip);
    Prefixes(base);
  }

  /** A /24 holds exactly the addresses that share the first three octets of its base. */
  lemma {:induction false} Slash24Contains(base: Ipv4Addr, ip: Ipv4Addr)
    ensures Contains(Ipv4Net(base, 24), ip) <==> ip.a == base.a && ip.b == base.b && ip.c == base.c
  {
    Pow2Values();
    var top := (ip.a * 0x100 + ip.b) * 0x100 + ip.c;
    var baseTop := (base.a * 0x100 + base.b) * 0x100 + base.c;
    DivMod(top, ip.d, 0x100);
    DivMod(baseTop, base.d, 0x100);
    if top == baseTop {
      DivMod(ip.a * 0x100 + ip.b, ip.c, 0x100);
      DivMod(base.a * 0x100 + base.b, base.c, 0x100);
      DivMod(ip.a, ip.b, 0x100);
      DivMod(base.a, base.b, 0x100);
    }
  }

  /** Loopback: 127.0.0.0/8, section 3.2.1.3 of RFC 1122 (`Ipv4Addr::is_loopback`). */
  predicate IsLoopback(ip: Ipv4Addr)
  {
    ip.a == 127
  }

  /** Limited broadcast: 255.255.255.255, section 3.2.1.3 of RFC 1122 (`Ipv4Addr::is_broadcast`). */
  predicate IsBroadcast(ip: Ipv4Addr)
  {
    ip == Ipv4Addr(255, 255, 255, 255)
  }

  /** The private ranges of section 3 of RFC 1918 (`Ipv4Addr::is_private`). */
  predicate IsPrivate(ip: Ipv4Addr)
  {
    || ip.a == 10
    || (ip.a == 172 && 16 <= ip.b <= 31)
    || (ip.a == 192 && ip.b == 168)
  }

  /** The loopback class is the prefix 127.0.0.0/8. */
  lemma {:induction false} LoopbackIsPrefix(ip: Ipv4Addr)
    ensures IsLoopback(ip) <==> Contains(Ipv4Net(Ipv4Addr(127, 0, 0, 0), 8), ip)
  {
    Prefixes(ip);
    Prefixes(Ipv4Addr(127, 0, 0, 0));
  }

  /** The limited-broadcast class is the single-address prefix 255.255.255.255/32. */
  lemma {:induction false} BroadcastIsPrefix(ip: Ipv4Addr)
    ensures IsBroadcast(ip) <==> Contains(Ipv4Net(Ipv4Addr(255, 255, 255, 255), 32), ip)
  {
    Prefixes(ip);
    var all := Ipv4Addr(255, 255, 255, 255);
    Prefixes(all);
    if ToU32(ip) == ToU32(all) {
      ToU32Injective(ip, all);
    }
  }

  /** The private class is the union of 10.0.0.0/8, 172.16.0.0/12 and 192.168.0.0/16. */
  lemma {:induction false} PrivateIsPrefixes(ip: Ipv4Addr)
    ensures IsPrivate(ip) <==>
      || Contains(Ipv4Net(Ipv4Addr(10, 0, 0, 0), 8), ip)
      || Contains(Ipv4Net(Ipv4Addr(172, 16, 0, 0), 12), ip)
      || Contains(Ipv4Net(Ipv4Addr(192, 168, 0, 0), 16), ip)
  {
    Prefixes(ip);
    Prefixes(Ipv4Addr(10, 0, 0, 0));
    Prefixes(Ipv4Addr(172, 16, 0, 0));
    Slash16Contains(Ipv4Addr(192, 168, 0, 0), ip);
    if ip.a == 172 && ip.a * 16 + ip.b / 16 == 172 * 16 + 1 {
      assert 16 <= ip.b <= 31;
    }
  }
}
