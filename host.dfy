/** The host's own connections, read from the kernel's connection tables
    (`/proc/net/tcp` and `/proc/net/udp`), and the question whether any of them
    goes to a given network. The tables' lines are inputs here. */
module Host {
  import opened Results
  import opened Text
  import opened Digits
  import opened Addr

  /** One connection: its local (source) and remote (destination) endpoint. */
  datatype Conn = Conn(srcIp: Ipv4Addr, srcPort: Port, dstIp: Ipv4Addr, dstPort: Port)

  /** The connections of the host, TCP and UDP, in table order. */
  datatype Host = Host(tcpConns: seq<Conn>, udpConns: seq<Conn>)

  /** `from_hex2`: a two-character group read as a byte in radix 16, written out
      case by case; `FromHex2IsFromStrRadix` shows it is what
      `u8::from_str_radix(s, 16)` does. */
  function FromHex2(s: string): (r: Result<Byte>)
    requires |s| == 2
    ensures r.Err? ==> r.error == BadHex(s)
    ensures r.Ok? ==> IsHexDigit(s[1]) && r.value % 16 == DigitValue(s[1])
  {
    if IsHexDigit(s[0]) && IsHexDigit(s[1]) then Ok(DigitValue(s[0]) * 16 + DigitValue(s[1]))
    else if s[0] == '+' && IsHexDigit(s[1]) then Ok(DigitValue(s[1]))
    else Err(BadHex(s))
  }

  /** The group reader agrees with `u8::from_str_radix` in radix 16: it accepts two
      hex digits of either case, or a '+' and one digit, and nothing else. */
  lemma {:induction false} FromHex2IsFromStrRadix(s: string)
    requires |s| == 2
    ensures FromHex2(s).Ok? <==> FromStrRadixU8(s, 16).Some?
    ensures FromHex2(s).Ok? ==> FromHex2(s).value == FromStrRadixU8(s, 16).value
  {
    HexPairAccepted(s);
    if IsHexDigit(s[0]) && IsHexDigit(s[1]) {
      HexPairValue(s);
    } else if s[0] == '+' && IsHexDigit(s[1]) {
      var digits := s[1..];
      assert digits[..0] == [] && digits[0] == s[1];
      assert AllDigitsIn(digits, 16);
      assert ValueIn(digits, 16) == DigitValue(s[1]);
    }
  }

  /** `parse_ip_port`: the kernel's "AAAAAAAA:PPPP" endpoint. The address is four
      hex bytes, least significant first; the port is two hex bytes, most
      significant first. Only the text before the first ':' and the text between
      it and the next ':' are read. */
  function ParseIpPort(s: string): (r: Result<(Ipv4Addr, Port)>)
    ensures r.Err? ==> r.error == NoPort(s) || r.error == BadIpPortLength(s) || r.error.BadHex?
  {
    var pieces := Split(s, ':');
    if |pieces| < 2 then Err(NoPort(s))
    else
      var ipText := pieces[0];
      var portText := pieces[1];
      if |ipText| != 8 || |portText| != 4 then Err(BadIpPortLength(s))
      else
        var a :- FromHex2(ipText[0..2]);
        var b :- FromHex2(ipText[2..4]);
        var c :- FromHex2(ipText[4..6]);
        var d :- FromHex2(ipText[6..8]);
        var x :- FromHex2(portText[0..2]);
        var y :- FromHex2(portText[2..4]);
        Ok((Ipv4Addr(d, c, b, a), x * 0x100 + y))
  }

  /** Two upper-case hex digits of a byte, high digit first. */
  function HexByte(n: Byte): (t: string)
    ensures |t| == 2 && IsHexDigit(t[0]) && IsHexDigit(t[1])
    ensures DigitValue(t[0]) * 16 + DigitValue(t[1]) == n
  {
    [HexChar(n / 16), HexChar(n % 16)]
  }

  /** An endpoint as the kernel writes it. */
  function EncodeIpPort(ip: Ipv4Addr, port: Port): string
  {
    HexByte(ip.d) + HexByte(ip.c) + HexByte(ip.b) + HexByte(ip.a) + ":" + HexByte(port / 0x100) + HexByte(port % 0x100)
  }

  lemma {:induction false} HexLacksColon(t: string)
    requires forall i :: 0 <= i < |t| ==> IsHexDigit(t[i])
    ensures ':' !in t
  {
  }

  /** Endpoints made of hex digits, in either case: the bytes of the address in
      reverse order, the bytes of the port in order. */
  lemma {:induction false} ParseIpPortHex(ipText: string, portText: string)
    requires |ipText| == 8 && |portText| == 4
    requires forall i :: 0 <= i < 8 ==> IsHexDigit(ipText[i])
    requires forall i :: 0 <= i < 4 ==> IsHexDigit(portText[i])
    ensures ParseIpPort(ipText + ":" + portText) == Ok((
      Ipv4Addr(
        DigitValue(ipText[6]) * 16 + DigitValue(ipText[7]),
        DigitValue(ipText[4]) * 16 + DigitValue(ipText[5]),
        DigitValue(ipText[2]) * 16 + DigitValue(ipText[3]),
        DigitValue(ipText[0]) * 16 + DigitValue(ipText[1])),
      (DigitValue(portText[0]) * 16 + DigitValue(portText[1])) * 0x100 +
        DigitValue(portText[2]) * 16 + DigitValue(portText[3])))
  {
    HexLacksColon(ipText);
    HexLacksColon(portText);
    SplitCons(ipText, portText, ':');
    SplitNoSep(portText, ':');
    assert ipText + ":" + portText == ipText + [':'] + portText;
    var ps := [ipText[0..2], ipText[2..4], ipText[4..6], ipText[6..8], portText[0..2], portText[2..4]];
    assert ps[0][0] == ipText[0] && ps[0][1] == ipText[1];
    assert ps[1][0] == ipText[2] && ps[1][1] == ipText[3];
    assert ps[2][0] == ipText[4] && ps[2][1] == ipText[5];
    assert ps[3][0] == ipText[6] && ps[3][1] == ipText[7];
    assert ps[4][0] == portText[0] && ps[4][1] == portText[1];
    assert ps[5][0] == portText[2] && ps[5][1] == portText[3];
  }

  /** The parser reads back every endpoint the kernel writes. */
  lemma {:induction false} ParseEncodeIpPort(ip: Ipv4Addr, port: Port)
    ensures ParseIpPort(EncodeIpPort(ip, port)) == Ok((ip, port))
  {
    var ipText := HexByte(ip.d) + HexByte(ip.c) + HexByte(ip.b) + HexByte(ip.a);
    var portText := HexByte(port / 0x100) + HexByte(port % 0x100);
    assert EncodeIpPort(ip, port) == ipText + ":" + portText;
    assert ipText[0..2] == HexByte(ip.d) && ipText[2..4] == HexByte(ip.c);
    assert ipText[4..6] == HexByte(ip.b) && ipText[6..8] == HexByte(ip.a);
    assert portText[0..2] == HexByte(port / 0x100) && portText[2..4] == HexByte(port % 0x100);
    ParseIpPortHex(ipText, portText);
  }

  /** Without a ':' there is no port. */
  lemma {:induction false} ParseIpPortNoColon(s: string)
    ensures ParseIpPort(s) == Err(NoPort(s)) <==> ':' !in s
  {
    if ':' !in s {
      SplitNoSep(s, ':');
    } else {
      var i := IndexOf(s, ':');
      assert s == s[..i] + [':'] + s[i + 1..];
      SplitCons(s[..i], s[i + 1..], ':');
    }
  }

  /** With a ':' after the address text, the lengths decide the length error: the
      address text must have 8 characters and the port text 4. */
  lemma {:induction false} ParseIpPortLengths(ipText: string, portText: string)
    requires ':' !in ipText && ':' !in portText
    ensures ParseIpPort(ipText + ":" + portText) == Err(BadIpPortLength(ipText + ":" + portText))
      <==> |ipText| != 8 || |portText| != 4
  {
    SplitCons(ipText, portText, ':');
    SplitNoSep(portText, ':');
    assert ipText + ":" + portText == ipText + [':'] + portText;
  }

  /** The accepted case of the unit tests of `parse_ip_port`. */
  lemma {:induction false} ParseIpPortExample()
    ensures ParseIpPort("C301A8C0:E5BC") == Ok((Ipv4Addr(192, 168, 1, 195), 58812))
  {
    var ip := Ipv4Addr(192, 168, 1, 195);
    assert HexByte(195) == "C3" && HexByte(1) == "01" && HexByte(168) == "A8" && HexByte(192) == "C0";
    assert HexByte(58812 / 0x100) == "E5" && HexByte(58812 % 0x100) == "BC";
    assert EncodeIpPort(ip, 58812) == "C301A8C0:E5BC";
    ParseEncodeIpPort(ip, 58812);
  }

  /** The rejected cases of the unit tests of `parse_ip_port`: a short address, a
      long port, and a character that is not a hex digit. */
  lemma {:induction false} ParseIpPortRejects()
    ensures ParseIpPort("C301A8C:E5BC") == Err(BadIpPortLength("C301A8C:E5BC"))
    ensures ParseIpPort("C301A8C0:E5BCC") == Err(BadIpPortLength("C301A8C0:E5BCC"))
    ensures ParseIpPort("C30xA8C0:E5BC") == Err(BadHex("0x"))
  {
    assert "C301A8C:E5BC" == "C301A8C" + ":" + "E5BC";
    ParseIpPortLengths("C301A8C", "E5BC");
    assert "C301A8C0:E5BCC" == "C301A8C0" + ":" + "E5BCC";
    ParseIpPortLengths("C301A8C0", "E5BCC");
    ParseIpPortBadHex();
  }

  /** The six two-character groups of an endpoint: four of the address, two of the port. */
  function Groups(ipText: string, portText: string): (g: seq<string>)
    requires |ipText| == 8 && |portText| == 4
    ensures |g| == 6 && forall i :: 0 <= i < 6 ==> |g[i]| == 2
  {
    [ipText[0..2], ipText[2..4], ipText[4..6], ipText[6..8], portText[0..2], portText[2..4]]
  }

  /** The ':'-free address and port texts are the first two pieces of the endpoint. */
  lemma {:induction false} EndpointPieces(ipText: string, portText: string)
    requires ':' !in ipText && ':' !in portText
    ensures var pieces := Split(ipText + ":" + portText, ':');
      |pieces| == 2 && pieces[0] == ipText && pieces[1] == portText
  {
    SplitCons(ipText, portText, ':');
    SplitNoSep(portText, ':');
    assert ipText + ":" + portText == ipText + [':'] + portText;
  }

  /** Every group is checked: an endpoint of the right lengths is read exactly when
      all six groups are hex bytes, and otherwise the error names the first group
      that is not. */
  lemma {:induction false} ParseIpPortGroups(ipText: string, portText: string)
    requires |ipText| == 8 && |portText| == 4 && ':' !in ipText && ':' !in portText
    ensures var r := ParseIpPort(ipText + ":" + portText); var g := Groups(ipText, portText);
      r.Ok? <==> forall i :: 0 <= i < 6 ==> FromHex2(g[i]).Ok?
    ensures var r := ParseIpPort(ipText + ":" + portText); var g := Groups(ipText, portText);
      r.Err? ==> (exists k :: 0 <= k < 6 && FromHex2(g[k]).Err? &&
                    (forall i :: 0 <= i < k ==> FromHex2(g[i]).Ok?) && r.error == BadHex(g[k]))
  {
    EndpointPieces(ipText, portText);
    var r := ParseIpPort(ipText + ":" + portText);
    var g := Groups(ipText, portText);
    var k := if FromHex2(g[0]).Err? then 0 else if FromHex2(g[1]).Err? then 1
      else if FromHex2(g[2]).Err? then 2 else if FromHex2(g[3]).Err? then 3
      else if FromHex2(g[4]).Err? then 4 else if FromHex2(g[5]).Err? then 5 else 6;
    assert forall i :: 0 <= i < k ==> FromHex2(g[i]).Ok?;
    if k < 6 {
      assert r.Err? && r.error == BadHex(g[k]);
    } else {
      assert r.Ok?;
    }
  }

  /** A second address group that is not hex is reported once the first is read. */
  lemma {:induction false} ParseIpPortSecondGroupBad(ipText: string, portText: string)
    requires |ipText| == 8 && |portText| == 4 && ':' !in ipText && ':' !in portText
    requires FromHex2(ipText[0..2]).Ok? && FromHex2(ipText[2..4]).Err?
    ensures ParseIpPort(ipText + ":" + portText) == Err(BadHex(ipText[2..4]))
  {
    SplitCons(ipText, portText, ':');
    SplitNoSep(portText, ':');
    assert ipText + ":" + portText == ipText + [':'] + portText;
  }

  lemma {:induction false} ParseIpPortBadHex()
    ensures ParseIpPort("C30xA8C0:E5BC") == Err(BadHex("0x"))
  {
    assert "C30xA8C0:E5BC" == "C30xA8C0" + ":" + "E5BC";
    assert "C30xA8C0"[0..2] == "C3" && "C30xA8C0"[2..4] == "0x";
    ParseIpPortSecondGroupBad("C30xA8C0", "E5BC");
  }

  /** One table line: its white-space-trimmed text split on ' '; the second field
      is the source endpoint and the third the destination. */
  function ParseLine(line: string, proto: string): Result<Conn>
  {
    var fields := Split(Trim(line), ' ');
    if |fields| < 3 then Err(NotEnoughFields(proto, line))
    else
      var src :- ParseIpPort(fields[1]);
      var dst :- ParseIpPort(fields[2]);
      Ok(Conn(src.0, src.1, dst.0, dst.1))
  }

  /** Splitting three space-free fields, and possibly more after a space. */
  lemma {:induction false} SplitFields(slot: string, src: string, dst: string, more: string)
    requires ' ' !in slot && ' ' !in src && ' ' !in dst
    requires more == [] || more[0] == ' '
    ensures var fields := Split(slot + " " + src + " " + dst + more, ' ');
      |fields| >= 3 && fields[0] == slot && fields[1] == src && fields[2] == dst
  {
    var rest := if more == [] then dst else dst + [' '] + more[1..];
    if more == [] {
      SplitNoSep(dst, ' ');
    } else {
      SplitCons(dst, more[1..], ' ');
      assert more == [' '] + more[1..];
    }
    assert Split(rest, ' ')[0] == dst;
    assert slot + " " + src + " " + dst + more == slot + [' '] + (src + [' '] + rest);
    SplitCons(src, rest, ' ');
    SplitCons(slot, src + [' '] + rest, ' ');
  }

  /** The fields of a line made of a slot, a source and a destination field, and
      possibly more fields after a space. */
  lemma {:induction false} LineFields(slot: string, src: string, dst: string, more: string)
    requires ' ' !in slot && ' ' !in src && ' ' !in dst
    requires slot != [] && !IsWhitespace(slot[0])
    requires dst != [] && !IsWhitespace(dst[|dst| - 1])
    requires more == [] || (more[0] == ' ' && !IsWhitespace(more[|more| - 1]))
    ensures var fields := Split(Trim(slot + " " + src + " " + dst + more), ' ');
      |fields| >= 3 && fields[0] == slot && fields[1] == src && fields[2] == dst
  {
    var line := slot + " " + src + " " + dst + more;
    assert line[0] == slot[0];
    assert line[|line| - 1] == if more == [] then dst[|dst| - 1] else more[|more| - 1];
    TrimTrimmed(line);
    SplitFields(slot, src, dst, more);
  }

  /** Such a line gives the connection between its two endpoints. */
  lemma {:induction false} ParseLineFields(slot: string, src: string, dst: string, more: string, proto: string)
    requires ' ' !in slot && ' ' !in src && ' ' !in dst
    requires slot != [] && !IsWhitespace(slot[0])
    requires dst != [] && !IsWhitespace(dst[|dst| - 1])
    requires more == [] || (more[0] == ' ' && !IsWhitespace(more[|more| - 1]))
    requires ParseIpPort(src).Ok? && ParseIpPort(dst).Ok?
    ensures ParseLine(slot + " " + src + " " + dst + more, proto) ==
      Ok(Conn(ParseIpPort(src).value.0, ParseIpPort(src).value.1, ParseIpPort(dst).value.0, ParseIpPort(dst).value.1))
  {
    LineFields(slot, src, dst, more);
  }

  /** A line as the kernel writes it, indented, with the slot number, the two
      endpoints and the connection state. */
  lemma {:induction false} ParseLineExample()
    ensures ParseLine("  " + "0:" + " " + "0100007F:0277" + " " + "00000000:0000" + " 0A", "tcp") ==
      Ok(Conn(Ipv4Addr(127, 0, 0, 1), 631, Ipv4Addr(0, 0, 0, 0), 0))
  {
    var body := "0:" + " " + "0100007F:0277" + " " + "00000000:0000" + " 0A";
    assert "  " + "0:" + " " + "0100007F:0277" + " " + "00000000:0000" + " 0A" == "  " + body;
    TrimStartLeading("  ", body);
    assert Trim("  " + body) == body;
    SplitFields("0:", "0100007F:0277", "00000000:0000", " 0A");
    LoopbackEndpoint();
    AnyEndpoint();
  }

  lemma {:induction false} LoopbackEndpoint()
    ensures ParseIpPort("0100007F:0277") == Ok((Ipv4Addr(127, 0, 0, 1), 631))
  {
    var ip := Ipv4Addr(127, 0, 0, 1);
    assert HexByte(1) == "01" && HexByte(0) == "00" && HexByte(127) == "7F";
    assert HexByte(631 / 0x100) == "02" && HexByte(631 % 0x100) == "77";
    assert EncodeIpPort(ip, 631) == "0100007F:0277";
    ParseEncodeIpPort(ip, 631);
  }

  lemma {:induction false} AnyEndpoint()
    ensures ParseIpPort("00000000:0000") == Ok((Ipv4Addr(0, 0, 0, 0), 0))
  {
    var ip := Ipv4Addr(0, 0, 0, 0);
    assert HexByte(0) == "00";
    assert EncodeIpPort(ip, 0) == "00000000:0000";
    ParseEncodeIpPort(ip, 0);
  }

  /** A line is rejected for too few fields, naming the table and the line, exactly
      when its trimmed text holds fewer than two spaces; any other line yields a
      connection or the error of one of its endpoints. */
  lemma {:induction false} ParseLineTooFew(line: string, proto: string)
    ensures ParseLine(line, proto) == Err(NotEnoughFields(proto, line)) <==> Count(Trim(line), ' ') < 2
  {
    SplitCount(Trim(line), ' ');
  }

  /** The fold over the parsed data lines of a table: their connections in line
      order, or the error of the first line that did not parse. */
  function FoldConns(rs: seq<Result<Conn>>): Result<seq<Conn>>
  {
    if |rs| == 0 then Ok([])
    else
      var acc :- FoldConns(rs[..|rs| - 1]);
      var c :- rs[|rs| - 1];
      Ok(acc + [c])
  }

  /** Each line of `lines`, parsed. */
  function ParsedLines(lines: seq<string>, proto: string): (rs: seq<Result<Conn>>)
    ensures |rs| == |lines|
    ensures forall i :: 0 <= i < |lines| ==> rs[i] == ParseLine(lines[i], proto)
  {
    seq(|lines|, i requires 0 <= i < |lines| => ParseLine(lines[i], proto))
  }

  /** A whole table: the first line is the column header and is skipped. */
  function ConnTable(lines: seq<string>, proto: string): Result<seq<Conn>>
  {
    if |lines| == 0 then Ok([]) else FoldConns(ParsedLines(lines[1..], proto))
  }

  /** The header line's text does not matter. */
  lemma {:induction false} HeaderIgnored(h1: string, h2: string, rows: seq<string>, proto: string)
    ensures ConnTable([h1] + rows, proto) == ConnTable([h2] + rows, proto)
  {
    assert ([h1] + rows)[1..] == rows == ([h2] + rows)[1..];
  }

  /** The fold over one more line, in terms of the fold over the earlier ones. */
  lemma {:induction false} FoldConnsLast(rs: seq<Result<Conn>>)
    requires |rs| > 0
    ensures var prev := FoldConns(rs[..|rs| - 1]);
      var c := rs[|rs| - 1];
      FoldConns(rs) ==
        if prev.Err? then prev
        else if c.Err? then Err(c.error)
        else Ok(prev.value + [c.value])
  {
  }

  /** `k` is the first line that did not parse. */
  predicate FirstBad(rs: seq<Result<Conn>>, k: nat)
  {
    k < |rs| && rs[k].Err? && forall i :: 0 <= i < k ==> rs[i].Ok?
  }

  /** What the line fold promises: it succeeds exactly when every line parses, and
      then holds one connection per line, in line order; otherwise its error is
      that of the first line that does not parse. */
  lemma {:induction false} FoldConnsSpec(rs: seq<Result<Conn>>)
    ensures FoldConns(rs).Ok? <==> forall i :: 0 <= i < |rs| ==> rs[i].Ok?
    ensures FoldConns(rs).Ok? ==>
      |FoldConns(rs).value| == |rs| && forall i :: 0 <= i < |rs| ==> FoldConns(rs).value[i] == rs[i].value
    ensures FoldConns(rs).Err? ==> exists k: nat :: FirstBad(rs, k) && FoldConns(rs).error == rs[k].error
  {
    if |rs| > 0 {
      var n := |rs| - 1;
      var prefix := rs[..n];
      FoldConnsSpec(prefix);
      FoldConnsLast(rs);
      assert forall i :: 0 <= i < n ==> prefix[i] == rs[i];
      var prev := FoldConns(prefix);
      if prev.Err? {
        var k: nat :| FirstBad(prefix, k) && prev.error == prefix[k].error;
        assert FirstBad(rs, k);
      } else if rs[n].Err? {
        assert FirstBad(rs, n);
      }
    }
  }

  /** The same for a table, in terms of its lines: the header is skipped, and the
      table is read exactly when every further line parses, one connection per
      line in order; otherwise the error is that of the first bad line. */
  lemma {:induction false} ConnTableOk(header: string, rows: seq<string>, proto: string)
    ensures ConnTable([header] + rows, proto).Ok? <==> forall i :: 0 <= i < |rows| ==> ParseLine(rows[i], proto).Ok?
    ensures ConnTable([header] + rows, proto).Ok? ==>
      |ConnTable([header] + rows, proto).value| == |rows| &&
      forall i :: 0 <= i < |rows| ==> ConnTable([header] + rows, proto).value[i] == ParseLine(rows[i], proto).value
  {
    assert ([header] + rows)[1..] == rows;
    var rs := ParsedLines(rows, proto);
    assert ConnTable([header] + rows, proto) == FoldConns(rs);
    FoldConnsSpec(rs);
  }

  lemma {:induction false} ConnTableErr(header: string, rows: seq<string>, proto: string)
    ensures ConnTable([header] + rows, proto).Err? ==>
      exists k: nat :: k < |rows| && ParseLine(rows[k], proto).Err? &&
        (forall i :: 0 <= i < k ==> ParseLine(rows[i], proto).Ok?) &&
        ConnTable([header] + rows, proto).error == ParseLine(rows[k], proto).error
  {
    assert ([header] + rows)[1..] == rows;
    var rs := ParsedLines(rows, proto);
    assert ConnTable([header] + rows, proto) == FoldConns(rs);
    FoldConnsSpec(rs);
    if FoldConns(rs).Err? {
      var k: nat :| FirstBad(rs, k) && FoldConns(rs).error == rs[k].error;
      assert forall i :: 0 <= i < k ==> rs[i].Ok?;
    }
  }

  /** Once the fold has failed, the lines after the failure change nothing. */
  lemma {:induction false} FoldConnsErrSticks(rs: seq<Result<Conn>>, j: nat, e: Error)
    requires j <= |rs| && FoldConns(rs[..j]) == Err(e)
    ensures FoldConns(rs) == Err(e)
    decreases |rs| - j
  {
    if j < |rs| {
      var prefix := rs[..j + 1];
      assert prefix[..j] == rs[..j];
      FoldConnsLast(prefix);
      FoldConnsErrSticks(rs, j + 1, e);
    } else {
      assert rs[..j] == rs;
    }
  }

  /** The line fold of `from_proc_net_tcp` for one table: skip the header, then
      parse every line and append its connection. */
  method ReadConnTable(lines: seq<string>, proto: string) returns (r: Result<seq<Conn>>)
    ensures r == ConnTable(lines, proto)
  {
    if |lines| == 0 {
      return Ok([]);
    }
    var rows := lines[1..];
    ghost var rs := ParsedLines(rows, proto);
    var acc: seq<Conn> := [];
    for i := 0 to |rows|
      invariant FoldConns(rs[..i]) == Ok(acc)
    {
      assert rs[..i + 1][..i] == rs[..i];
      FoldConnsLast(rs[..i + 1]);
      var c := ParseLine(rows[i], proto);
      assert rs[..i + 1][i] == c;
      if c.Err? {
        FoldConnsErrSticks(rs, i + 1, c.error);
        return Err(c.error);
      }
      acc := acc + [c.value];
    }
    assert rs[..|rows|] == rs;
    return Ok(acc);
  }

  /** `Host::from_proc_net_tcp`: both tables, the TCP table's error first. */
  method FromProcNet(tcpLines: seq<string>, udpLines: seq<string>) returns (r: Result<Host>)
    ensures var tcp := ConnTable(tcpLines, "tcp"); var udp := ConnTable(udpLines, "udp");
      && (r.Ok? <==> tcp.Ok? && udp.Ok?)
      && (r.Ok? ==> r.value == Host(tcp.value, udp.value))
      && (r.Err? ==> r.error == if tcp.Err? then tcp.error else udp.error)
  {
    var tcp := ReadConnTable(tcpLines, "tcp");
    var udp := ReadConnTable(udpLines, "udp");
    if tcp.Err? {
      return Err(tcp.error);
    }
    if udp.Err? {
      return Err(udp.error);
    }
    return Ok(Host(tcp.value, udp.value));
  }

  /** The connections in the order `contains_dst` scans them: TCP, then UDP. */
  function Conns(h: Host): seq<Conn>
  {
    h.tcpConns + h.udpConns
  }

  /** Connection `i` is the first whose destination lies in `net`. */
  predicate FirstMatch(conns: seq<Conn>, net: Ipv4Net, i: nat)
  {
    i < |conns| && Contains(net, conns[i].dstIp) &&
    forall j :: 0 <= j < i ==> !Contains(net, conns[j].dstIp)
  }

  /** The position of the first connection whose destination lies in `net`. */
  function FirstDstIn(conns: seq<Conn>, net: Ipv4Net): (r: Option<nat>)
    ensures r.None? <==> forall i :: 0 <= i < |conns| ==> !Contains(net, conns[i].dstIp)
    ensures r.Some? ==> FirstMatch(conns, net, r.value)
  {
    if |conns| == 0 then None
    else if Contains(net, conns[0].dstIp) then Some(0)
    else
      match FirstDstIn(conns[1..], net)
      case None => None
      case Some(k) => Some(k + 1)
  }

  /** The destination (printed address and port) of the first connection, TCP
      before UDP, whose destination lies in `net`. */
  function DstIn(h: Host, net: Ipv4Net): (r: Option<(string, Port)>)
    ensures r.None? <==> forall c :: c in Conns(h) ==> !Contains(net, c.dstIp)
    ensures r.Some? ==> exists i: nat :: FirstMatch(Conns(h), net, i) && r.value == (FormatIpv4(Conns(h)[i].dstIp), Conns(h)[i].dstPort)
  {
    var conns := Conns(h);
    match FirstDstIn(conns, net)
    case None => None
    case Some(i) => Some((FormatIpv4(conns[i].dstIp), conns[i].dstPort))
  }

  /** `Host::contains_dst`: the network text must parse; the answer is that of
      `DstIn` for the network it denotes. */
  function ContainsDst(h: Host, netStr: string): (r: Option<(string, Port)>)
    requires ParseNet(netStr).Some?
    ensures var net := ParseNet(netStr).value;
      r.None? <==> forall c :: c in Conns(h) ==> !Contains(net, c.dstIp)
    ensures var net := ParseNet(netStr).value;
      r.Some? ==> exists i: nat :: FirstMatch(Conns(h), net, i) && r.value == (FormatIpv4(Conns(h)[i].dstIp), Conns(h)[i].dstPort)
  {
    DstIn(h, ParseNet(netStr).value)
  }

  /** On the CIDR text of a network, `contains_dst` answers what `DstIn` answers for
      that network; so the examples below, stated on networks, hold for their text. */
  lemma {:induction false} ContainsDstFormatNet(h: Host, net: Ipv4Net)
    ensures ParseNet(FormatNet(net)) == Some(net)
    ensures ContainsDst(h, FormatNet(net)) == DstIn(h, net)
  {
    FormatNetReadsBack(net);
  }

  /** The same destinations, whatever the sources. */
  predicate SameDsts(xs: seq<Conn>, ys: seq<Conn>)
  {
    |xs| == |ys| && forall i :: 0 <= i < |xs| ==> xs[i].dstIp == ys[i].dstIp && xs[i].dstPort == ys[i].dstPort
  }

  lemma {:induction false} FirstDstInSameDsts(xs: seq<Conn>, ys: seq<Conn>, net: Ipv4Net)
    requires SameDsts(xs, ys)
    ensures FirstDstIn(xs, net) == FirstDstIn(ys, net)
    decreases |xs|
  {
    if |xs| > 0 {
      FirstDstInSameDsts(xs[1..], ys[1..], net);
    }
  }

  /** `contains_dst` looks at destinations only: hosts whose connections go to the
      same endpoints in the same order give the same answer. */
  lemma {:induction false} ContainsDstIgnoresSources(h: Host, g: Host, netStr: string)
    requires ParseNet(netStr).Some?
    requires SameDsts(h.tcpConns, g.tcpConns) && SameDsts(h.udpConns, g.udpConns)
    ensures ContainsDst(h, netStr) == ContainsDst(g, netStr)
  {
    assert SameDsts(Conns(h), Conns(g));
    FirstDstInSameDsts(Conns(h), Conns(g), ParseNet(netStr).value);
  }

  /** A matching TCP connection wins over any UDP one. */
  lemma {:induction false} ContainsDstTcpFirst(h: Host, netStr: string)
    requires ParseNet(netStr).Some?
    requires exists c :: c in h.tcpConns && Contains(ParseNet(netStr).value, c.dstIp)
    ensures ContainsDst(h, netStr).Some?
    ensures exists c :: c in h.tcpConns && ContainsDst(h, netStr).value == (FormatIpv4(c.dstIp), c.dstPort)
  {
    var net := ParseNet(netStr).value;
    var c :| c in h.tcpConns && Contains(net, c.dstIp);
    var conns := Conns(h);
    assert c in conns;
    var i := FirstDstIn(conns, net).value;
    var t :| 0 <= t < |h.tcpConns| && h.tcpConns[t] == c;
    assert conns[t] == c;
    assert i <= t;
    assert conns[i] == h.tcpConns[i];
  }

  /** The host of the unit tests of `contains_dst`: two TCP and two UDP
      connections, all on port 0. */
  function TestHost(): Host
  {
    Host(
      [Conn(Ipv4Addr(192, 168, 100, 4), 0, Ipv4Addr(192, 168, 200, 5), 0),
       Conn(Ipv4Addr(10, 0, 1, 6), 0, Ipv4Addr(10, 0, 2, 7), 0)],
      [Conn(Ipv4Addr(172, 17, 200, 4), 0, Ipv4Addr(172, 17, 250, 5), 0),
       Conn(Ipv4Addr(12, 0, 1, 6), 0, Ipv4Addr(12, 0, 2, 7), 0)])
  }

  /** A /24 test: only the first TCP destination lies in 192.168.200.0/24, and the
      only UDP one in 172.17.250.0/24. */
  lemma {:induction false} ContainsDstSlash24()
    ensures DstIn(TestHost(), Ipv4Net(Ipv4Addr(192, 168, 200, 0), 24))
      == Some((FormatIpv4(Ipv4Addr(192, 168, 200, 5)), 0))
    ensures DstIn(TestHost(), Ipv4Net(Ipv4Addr(172, 17, 250, 0), 24))
      == Some((FormatIpv4(Ipv4Addr(172, 17, 250, 5)), 0))
  {
    var conns := Conns(TestHost());
    var n1 := Ipv4Net(Ipv4Addr(192, 168, 200, 0), 24);
    Slash24Contains(n1.base, conns[0].dstIp);
    assert FirstMatch(conns, n1, 0);
    var n2 := Ipv4Net(Ipv4Addr(172, 17, 250, 0), 24);
    Slash24Contains(n2.base, conns[0].dstIp);
    Slash24Contains(n2.base, conns[1].dstIp);
    Slash24Contains(n2.base, conns[2].dstIp);
    assert FirstMatch(conns, n2, 2);
  }

  /** A /16 test: the second TCP destination lies in 10.0.0.0/16, and the second
      UDP one in 12.0.0.0/16. */
  lemma {:induction false} ContainsDstSlash16()
    ensures DstIn(TestHost(), Ipv4Net(Ipv4Addr(10, 0, 0, 0), 16))
      == Some((FormatIpv4(Ipv4Addr(10, 0, 2, 7)), 0))
    ensures DstIn(TestHost(), Ipv4Net(Ipv4Addr(12, 0, 0, 0), 16))
      == Some((FormatIpv4(Ipv4Addr(12, 0, 2, 7)), 0))
  {
    var conns := Conns(TestHost());
    var n1 := Ipv4Net(Ipv4Addr(10, 0, 0, 0), 16);
    Slash16Contains(n1.base, conns[0].dstIp);
    Slash16Contains(n1.base, conns[1].dstIp);
    assert FirstMatch(conns, n1, 1);
    var n2 := Ipv4Net(Ipv4Addr(12, 0, 0, 0), 16);
    Slash16Contains(n2.base, conns[0].dstIp);
    Slash16Contains(n2.base, conns[1].dstIp);
    Slash16Contains(n2.base, conns[2].dstIp);
    Slash16Contains(n2.base, conns[3].dstIp);
    assert FirstMatch(conns, n2, 3);
  }

  /** The negative tests: no destination lies in 13.0.0.0/8, and 192.168.100.0/24
      holds a source address only. */
  lemma {:induction false} ContainsDstNone()
    ensures DstIn(TestHost(), Ipv4Net(Ipv4Addr(13, 0, 0, 0), 8)).None?
    ensures DstIn(TestHost(), Ipv4Net(Ipv4Addr(192, 168, 100, 0), 24)).None?
  {
    var conns := Conns(TestHost());
    var n1 := Ipv4Net(Ipv4Addr(13, 0, 0, 0), 8);
    forall c | c in conns
      ensures !Contains(n1, c.dstIp)
    {
      Slash8Contains(n1.base, c.dstIp);
    }
    var n2 := Ipv4Net(Ipv4Addr(192, 168, 100, 0), 24);
    forall c | c in conns
      ensures !Contains(n2, c.dstIp)
    {
      Slash24Contains(n2.base, c.dstIp);
    }
  }
}
