// From configuration text to scan targets: expandCIDR on text,
// generateTargets, expandPorts and expandPortRange
// (internal/service/discovery.go).
module ScanTargets {
  import opened Common
  import opened Addresses
  import opened Lists
  import Decimal
  import Text

  type ParsedBlock = b: Block | b.Valid() witness Block([0, 0, 0, 0], 0)

  // What package net contributes: reading and printing addresses.
  datatype NetText = NetText(parseCIDR: string -> Option<ParsedBlock>, isIP: string -> bool, show: Address -> string)

  // ---- expandCIDR -------------------------------------------------------

  function ShowAll(net: NetText, xs: seq<Address>): (r: seq<string>)
    ensures |r| == |xs|
  {
    seq(|xs|, i requires 0 <= i < |xs| => net.show(xs[i]))
  }

  // The addresses a range stands for, or None when it is refused.
  function Expansion(net: NetText, cidr: string): (r: Option<seq<string>>)
  {
    if '/' in cidr then
      match net.parseCIDR(cidr)
      case None => None
      case Some(b) =>
        if b.HostBits() <= 16 then Some(ShowAll(net, Consecutive(b.Network(), Pow2(b.HostBits()))))
        else if b.HostBits() < 64 then None
        else Some([net.show(b.Network())])
    else if net.isIP(cidr) then Some([cidr])
    else None
  }

  method ExpandCIDR(net: NetText, cidr: string) returns (r: Result<seq<string>>)
    ensures r.Ok? <==> Expansion(net, cidr).Some?
    ensures r.Ok? ==> Expansion(net, cidr) == Some(r.value)
  {
    if '/' in cidr {
      match net.parseCIDR(cidr)
      case None => return Err("invalid CIDR address");
      case Some(b) =>
        var block: Block := b;
        var ips := ExpandBlock(block);
        if ips.Err? {
          return Err(ips.error);
        }
        var shown := ShowAll(net, ips.value);
        assert block.HostBits() >= 64 ==> shown == [net.show(block.Network())];
        return Ok(shown);
    }
    if net.isIP(cidr) {
      return Ok([cidr]);
    }
    return Err("invalid IP address or CIDR");
  }

  // No range, whatever its prefix length, stands for more than 65536 addresses.
  lemma {:induction false} ExpansionIsCapped(net: NetText, cidr: string)
    ensures Expansion(net, cidr).Some? ==> |Expansion(net, cidr).value| <= MAX_IPS
  {
    Pow2At16();
    if '/' in cidr {
      match net.parseCIDR(cidr)
      case None =>
      case Some(b) =>
        if b.HostBits() <= 16 {
          Pow2Monotone(b.HostBits(), 16);
        }
    }
  }

  // ---- generateTargets --------------------------------------------------

  function Url(ip: string, port: int): string {
    "http://" + ip + ":" + Decimal.Print(port)
  }

  predicate Excluded(url: string, excluded: seq<string>) {
    exists i :: 0 <= i < |excluded| && Text.Contains(url, excluded[i])
  }

  function TargetOf(ip: string, portText: string, excluded: seq<string>): seq<string> {
    match Decimal.Atoi(portText)
    case None => []
    case Some(port) => if Excluded(Url(ip, port), excluded) then [] else [Url(ip, port)]
  }

  function AddressTargets(ip: string, ports: seq<string>, excluded: seq<string>): seq<string> {
    FlatMap(ports, portText => TargetOf(ip, portText, excluded))
  }

  function RangeTargets(net: NetText, range: string, ports: seq<string>, excluded: seq<string>): seq<string> {
    match Expansion(net, range)
    case None => []
    case Some(ips) => FlatMap(ips, ip => AddressTargets(ip, ports, excluded))
  }

  function Targets(net: NetText, ranges: seq<string>, ports: seq<string>, excluded: seq<string>): seq<string> {
    FlatMap(ranges, range => RangeTargets(net, range, ports, excluded))
  }

  method IsExcluded(url: string, excluded: seq<string>) returns (r: bool)
    ensures r <==> Excluded(url, excluded)
  {
    r := false;
    for i := 0 to |excluded|
      invariant r <==> exists k :: 0 <= k < i && Text.Contains(url, excluded[k])
    {
      if Text.Contains(url, excluded[i]) {
        r := true;
        break;
      }
    }
  }

  method GenerateTargets(net: NetText, ranges: seq<string>, ports: seq<string>, proxyAddrs: seq<string>, custom: seq<string>)
    returns (targets: seq<string>)
    ensures targets == Targets(net, ranges, ports, proxyAddrs + custom)
  {
    var excluded := proxyAddrs + custom;
    ghost var f := range => RangeTargets(net, range, ports, excluded);
    targets := [];
    for r := 0 to |ranges|
      invariant targets == FlatMap(ranges[..r], f)
    {
      FlatMapStep(ranges, r, f);
      var expanded := ExpandCIDR(net, ranges[r]);
      if expanded.Ok? {
        var found := TargetsOfAddresses(expanded.value, ports, excluded);
        targets := targets + found;
      }
    }
    FlatMapWhole(ranges, f);
  }

  // The middle loop of generateTargets.
  method TargetsOfAddresses(ips: seq<string>, ports: seq<string>, excluded: seq<string>) returns (targets: seq<string>)
    ensures targets == FlatMap(ips, ip => AddressTargets(ip, ports, excluded))
  {
    ghost var f := ip => AddressTargets(ip, ports, excluded);
    targets := [];
    for a := 0 to |ips|
      invariant targets == FlatMap(ips[..a], f)
    {
      FlatMapStep(ips, a, f);
      var found := TargetsOfPorts(ips[a], ports, excluded);
      targets := targets + found;
    }
    FlatMapWhole(ips, f);
  }

  // The inner loop of generateTargets.
  method TargetsOfPorts(ip: string, ports: seq<string>, excluded: seq<string>) returns (targets: seq<string>)
    ensures targets == AddressTargets(ip, ports, excluded)
  {
    ghost var g := portText => TargetOf(ip, portText, excluded);
    targets := [];
    for p := 0 to |ports|
      invariant targets == FlatMap(ports[..p], g)
    {
      FlatMapStep(ports, p, g);
      var port := Decimal.Atoi(ports[p]);
      if port.Some? {
        var target := Url(ip, port.value);
        var skip := IsExcluded(target, excluded);
        if !skip {
          targets := targets + [target];
        }
      }
    }
    FlatMapWhole(ports, g);
  }

  // Some excluded text occurs in the URL.
  ghost predicate IsHit(url: string, excluded: seq<string>) {
    exists text, a, b :: text in excluded && url == a + text + b
  }

  lemma {:induction false} ExcludedIff(url: string, excluded: seq<string>)
    ensures Excluded(url, excluded) <==> IsHit(url, excluded)
  {
    if Excluded(url, excluded) {
      var i :| 0 <= i < |excluded| && Text.Contains(url, excluded[i]);
      Text.ContainsIff(url, excluded[i]);
      var a, b :| url == a + excluded[i] + b;
      assert excluded[i] in excluded;
    }
    forall text, a, b | text in excluded && url == a + text + b
      ensures Excluded(url, excluded)
    {
      Text.ContainsIff(url, text);
      var i :| 0 <= i < |excluded| && excluded[i] == text;
    }
  }

  // `url` is the target of some address of some range and some numeric port,
  // and no excluded text occurs in it.
  ghost predicate Wanted(net: NetText, ranges: seq<string>, ports: seq<string>, excluded: seq<string>, url: string) {
    && !IsHit(url, excluded)
    && exists range, ip, portText :: range in ranges && InRange(net, range, ip) && portText in ports && Reaches(ip, portText, url)
  }

  ghost predicate InRange(net: NetText, range: string, ip: string) {
    Expansion(net, range).Some? && ip in Expansion(net, range).value
  }

  // The URL is that of the address with the number the port text parses to.
  predicate Reaches(ip: string, portText: string, url: string) {
    Decimal.Atoi(portText).Some? && url == "http://" + ip + ":" + Decimal.Print(Decimal.Atoi(portText).value)
  }

  // Without a slash a range is a plain address, which stands for itself
  // alone, or it is refused; so is one with a slash that is no block.
  lemma {:induction false} PlainRangeMeaning(net: NetText, text: string)
    ensures '/' !in text && net.isIP(text) ==> Expansion(net, text) == Some([text])
    ensures '/' !in text && !net.isIP(text) ==> Expansion(net, text) == None
    ensures '/' in text && net.parseCIDR(text) == None ==> Expansion(net, text) == None
  {
  }

  // The addresses of a block of at most 16 host bits come in order, each
  // printed once.
  lemma {:induction false} CidrRangeInOrder(net: NetText, cidr: string, b: ParsedBlock, i: nat, x: Address)
    requires '/' in cidr && net.parseCIDR(cidr) == Some(b) && b.HostBits() <= 16
    ensures Expansion(net, cidr).Some? && |Expansion(net, cidr).value| == Pow2(b.HostBits())
    ensures i < Pow2(b.HostBits()) && b.Covers(x) && Value(x) == Value(b.Network()) + i ==>
              Expansion(net, cidr).value[i] == net.show(x)
  {
    if i < Pow2(b.HostBits()) && b.Covers(x) && Value(x) == Value(b.Network()) + i {
      var xs := Consecutive(b.Network(), Pow2(b.HostBits()));
      BlockFits(b);
      ConsecutiveAt(b.Network(), Pow2(b.HostBits()), i);
      ValueInjective(xs[i], x);
      assert ShowAll(net, xs)[i] == net.show(xs[i]);
    }
  }

  // A CIDR range of at most 16 host bits stands for exactly the addresses its
  // prefix covers; one of 64 or more for its network address alone.
  lemma {:induction false} CidrRangeMeaning(net: NetText, cidr: string, b: ParsedBlock, ip: string)
    requires '/' in cidr && net.parseCIDR(cidr) == Some(b)
    ensures b.HostBits() <= 16 ==> (InRange(net, cidr, ip) <==> exists x :: b.Covers(x) && net.show(x) == ip)
    ensures 16 < b.HostBits() < 64 ==> Expansion(net, cidr) == None
    ensures b.HostBits() >= 64 ==> Expansion(net, cidr) == Some([net.show(b.Network())])
  {
    if b.HostBits() <= 16 {
      ExpansionIsTheBlock(b);
      var xs := Consecutive(b.Network(), Pow2(b.HostBits()));
      if InRange(net, cidr, ip) {
        var i :| 0 <= i < |xs| && ShowAll(net, xs)[i] == ip;
        assert b.Covers(xs[i]) by { assert xs[i] in xs; }
      }
      forall x | b.Covers(x) && net.show(x) == ip
        ensures InRange(net, cidr, ip)
      {
        var i :| 0 <= i < |xs| && xs[i] == x;
        assert ShowAll(net, xs)[i] == ip;
      }
    }
  }

  lemma {:induction false} InAddressTargets(ip: string, ports: seq<string>, excluded: seq<string>, url: string)
    ensures url in AddressTargets(ip, ports, excluded) <==>
            !IsHit(url, excluded) && exists portText :: portText in ports && Reaches(ip, portText, url)
  {
    InFlatMap(ports, portText => TargetOf(ip, portText, excluded), url);
    ExcludedIff(url, excluded);
    forall portText
      ensures url in TargetOf(ip, portText, excluded) <==> !Excluded(url, excluded) && Reaches(ip, portText, url)
    {
    }
  }

  lemma {:induction false} InRangeTargets(net: NetText, range: string, ports: seq<string>, excluded: seq<string>, url: string)
    ensures url in RangeTargets(net, range, ports, excluded) <==>
            !IsHit(url, excluded) && exists ip, portText :: InRange(net, range, ip) && portText in ports && Reaches(ip, portText, url)
  {
    if Expansion(net, range).Some? {
      var ips := Expansion(net, range).value;
      InFlatMap(ips, ip => AddressTargets(ip, ports, excluded), url);
      forall ip | ip in ips {
        InAddressTargets(ip, ports, excluded, url);
      }
    }
  }

  // The targets are exactly the wanted URLs.
  lemma {:induction false} TargetsExactlyWanted(net: NetText, ranges: seq<string>, ports: seq<string>, excluded: seq<string>, url: string)
    ensures url in Targets(net, ranges, ports, excluded) <==> Wanted(net, ranges, ports, excluded, url)
  {
    InFlatMap(ranges, range => RangeTargets(net, range, ports, excluded), url);
    forall range | range in ranges {
      InRangeTargets(net, range, ports, excluded, url);
    }
  }

  // Every target reads as its address and a text without colons that is the
  // number of its port.
  lemma {:induction false} TargetReads(net: NetText, ranges: seq<string>, ports: seq<string>, excluded: seq<string>, url: string)
    requires url in Targets(net, ranges, ports, excluded)
    ensures exists range, ip, portText, t ::
              && range in ranges && InRange(net, range, ip) && portText in ports
              && url == "http://" + ip + ":" + t && ':' !in t
              && Decimal.Atoi(t).Some? && Decimal.Atoi(t) == Decimal.Atoi(portText)
  {
    TargetsExactlyWanted(net, ranges, ports, excluded, url);
    var range, ip, portText :| range in ranges && InRange(net, range, ip) && portText in ports && Reaches(ip, portText, url);
    PortReads(portText);
    var t := Decimal.Print(Decimal.Atoi(portText).value);
    assert url == "http://" + ip + ":" + t;
  }

  lemma {:induction false} PortReads(portText: string)
    requires Decimal.Atoi(portText).Some?
    ensures var t := Decimal.Print(Decimal.Atoi(portText).value);
            ':' !in t && Decimal.Atoi(t) == Decimal.Atoi(portText)
  {
    var n := Decimal.Atoi(portText).value;
    Decimal.AtoiIff(portText, n);
    Decimal.AtoiOfPrint(n);
    var t := Decimal.Print(n);
    forall i | 0 <= i < |t|
      ensures t[i] != ':'
    {
      assert t[i] == '-' || Decimal.IsDigit(t[i]) by {
        if n < 0 && i > 0 {
          assert Decimal.IsDigit(t[1..][i - 1]);
        }
      }
    }
  }

  // Targets of different addresses or ports are different, although an
  // address may hold colons itself.
  lemma {:induction false} TargetsDiffer(ip1: string, port1: string, ip2: string, port2: string, url: string)
    requires Reaches(ip1, port1, url) && Reaches(ip2, port2, url)
    ensures ip1 == ip2 && Decimal.Atoi(port1) == Decimal.Atoi(port2)
  {
    PortReads(port1);
    PortReads(port2);
    var t1, t2 := Decimal.Print(Decimal.Atoi(port1).value), Decimal.Print(Decimal.Atoi(port2).value);
    assert ("http://" + ip1 + ":" + t1)[..7] == "http://";
    Text.CutAtLast("http://" + ip1, "http://" + ip2, t1, t2, ':');
    assert ip1 == ("http://" + ip1)[7..] && ip2 == ("http://" + ip2)[7..];
  }

  // With nothing excluded, an address has as many targets as it is given
  // different numeric ports: one for each, in their order.
  lemma {:induction false} OneTargetPerPort(ip: string, ports: seq<string>)
    requires forall i :: 0 <= i < |ports| ==> Decimal.Atoi(ports[i]).Some?
    requires forall i, j :: 0 <= i < j < |ports| ==> Decimal.Atoi(ports[i]) != Decimal.Atoi(ports[j])
    ensures var targets := AddressTargets(ip, ports, []);
            && |targets| == |ports|
            && (forall i :: 0 <= i < |ports| ==> Reaches(ip, ports[i], targets[i]))
            && (forall i, j :: 0 <= i < j < |targets| ==> targets[i] != targets[j])
  {
    TargetsInPortOrder(ip, ports);
    var targets := AddressTargets(ip, ports, []);
    forall i, j | 0 <= i < j < |targets|
      ensures targets[i] != targets[j]
    {
      if targets[i] == targets[j] {
        TargetsDiffer(ip, ports[i], ip, ports[j], targets[i]);
      }
    }
  }

  lemma {:induction false} TargetsInPortOrder(ip: string, ports: seq<string>)
    requires forall i :: 0 <= i < |ports| ==> Decimal.Atoi(ports[i]).Some?
    ensures var targets := AddressTargets(ip, ports, []);
            |targets| == |ports| && forall i :: 0 <= i < |ports| ==> Reaches(ip, ports[i], targets[i])
  {
    if ports != [] {
      var n := |ports| - 1;
      TargetsInPortOrder(ip, ports[..n]);
      OneMorePort(ip, ports);
    }
  }

  lemma {:induction false} OneMorePort(ip: string, ports: seq<string>)
    requires ports != [] && Decimal.Atoi(ports[|ports| - 1]).Some?
    ensures var n := |ports| - 1;
            exists url :: Reaches(ip, ports[n], url) && AddressTargets(ip, ports, []) == AddressTargets(ip, ports[..n], []) + [url]
  {
    var url := Url(ip, Decimal.Atoi(ports[|ports| - 1]).value);
    assert Reaches(ip, ports[|ports| - 1], url);
    assert !Excluded(url, []);
  }

  // Nested order: the targets of joined lists are the targets of the parts,
  // one after the other, at each of the three levels.
  lemma {:induction false} TargetsInOrder(
    net: NetText, r1: seq<string>, r2: seq<string>, a1: seq<string>, a2: seq<string>, range: string,
    p1: seq<string>, p2: seq<string>, ip: string, excluded: seq<string>)
    ensures Targets(net, r1 + r2, p1, excluded) == Targets(net, r1, p1, excluded) + Targets(net, r2, p1, excluded)
    ensures Expansion(net, range) == Some(a1 + a2) ==>
              var f := a => AddressTargets(a, p1, excluded);
              RangeTargets(net, range, p1, excluded) == FlatMap(a1, f) + FlatMap(a2, f)
    ensures AddressTargets(ip, p1 + p2, excluded) == AddressTargets(ip, p1, excluded) + AddressTargets(ip, p2, excluded)
  {
    FlatMapConcat(r1, r2, range => RangeTargets(net, range, p1, excluded));
    FlatMapConcat(a1, a2, a => AddressTargets(a, p1, excluded));
    FlatMapConcat(p1, p2, portText => TargetOf(ip, portText, excluded));
  }

  // ---- expandPorts ------------------------------------------------------

  function PortRange(start: int, end: int): (ports: seq<int>)
    ensures forall p :: p in ports <==> start <= p <= end
    decreases end - start + 1
  {
    if start > end then [] else PortRange(start, end - 1) + [end]
  }

  function SpecRange(spec: string): seq<int> {
    var parts := Text.Split(spec, '-');
    if |parts| != 2 then []
    else
      match (Decimal.Atoi(Text.TrimSpace(parts[0])), Decimal.Atoi(Text.TrimSpace(parts[1])))
      case (Some(start), Some(end)) => PortRange(start, end)
      case _ => []
  }

  function SpecPorts(spec: string): seq<int> {
    if '-' in spec then SpecRange(spec)
    else match Decimal.Atoi(spec) case None => [] case Some(p) => [p]
  }

  function Ports(specs: seq<string>): seq<int> {
    FlatMap(specs, SpecPorts)
  }

  // The range counts up to the largest 64-bit integer. No counter exceeds
  // that, so the loop of expandPortRange does not come to an end.
  predicate NeverEnds(spec: string) {
    var parts := Text.Split(spec, '-');
    |parts| == 2 && Decimal.Atoi(Text.TrimSpace(parts[0])).Some? && Decimal.Atoi(Text.TrimSpace(parts[1])) == Some(Decimal.MAX_INT64)
  }

  // The 64-bit loop counter after `n` rounds.
  function Counter(start: int, n: nat): int {
    Decimal.Wrapped(start + n)
  }

  // The counter passes the end at some time exactly when the end is not the
  // largest integer.
  lemma {:induction false} PortLoopEndsIff(start: int, end: int)
    requires Decimal.IsInt64(start) && Decimal.IsInt64(end)
    ensures (exists n: nat :: Counter(start, n) > end) <==> end < Decimal.MAX_INT64
  {
    if end < Decimal.MAX_INT64 {
      var n: nat := if start > end then 0 else end + 1 - start;
      Decimal.WrappedIff(start + n);
      assert Counter(start, n) > end;
    } else {
      forall n: nat
        ensures Counter(start, n) <= end
      {
        Decimal.WrappedIff(start + n);
      }
    }
  }

  method ExpandPortRange(spec: string) returns (ports: seq<int>)
    requires !NeverEnds(spec)
    ensures ports == SpecRange(spec)
  {
    ports := [];
    var parts := Text.Split(spec, '-');
    if |parts| != 2 {
      return;
    }
    var start := Decimal.Atoi(Text.TrimSpace(parts[0]));
    if start.None? {
      return;
    }
    var end := Decimal.Atoi(Text.TrimSpace(parts[1]));
    if end.None? {
      return;
    }
    var port := start.value;
    while port <= end.value
      invariant start.value <= port && (port <= end.value + 1 || port == start.value)
      invariant ports == PortRange(start.value, port - 1)
    {
      ports := ports + [port];
      Decimal.WrappedIff(port + 1);
      port := Decimal.Wrapped(port + 1);
    }
  }

  method ExpandPorts(specs: seq<string>) returns (ports: seq<int>)
    requires forall i :: 0 <= i < |specs| ==> !NeverEnds(specs[i])
    ensures ports == Ports(specs)
  {
    ports := [];
    for i := 0 to |specs|
      invariant ports == FlatMap(specs[..i], SpecPorts)
    {
      FlatMapStep(specs, i, SpecPorts);
      if '-' in specs[i] {
        var range := ExpandPortRange(specs[i]);
        ports := ports + range;
      } else {
        var port := Decimal.Atoi(specs[i]);
        if port.Some? {
          ports := ports + [port.value];
        }
      }
    }
    FlatMapWhole(specs, SpecPorts);
  }

  // `spec` reads "x-y", with a single dash, and x, y enclose the port; or it
  // is the port itself.
  ghost predicate Denotes(spec: string, port: int) {
    || ('-' !in spec && Decimal.Atoi(spec) == Some(port))
    || exists x, y :: spec == x + "-" + y && Encloses(x, y, port)
  }

  predicate Encloses(x: string, y: string, port: int) {
    && '-' !in x && '-' !in y
    && Decimal.Atoi(Text.TrimSpace(x)).Some? && Decimal.Atoi(Text.TrimSpace(y)).Some?
    && Decimal.Atoi(Text.TrimSpace(x)).value <= port <= Decimal.Atoi(Text.TrimSpace(y)).value
  }

  lemma {:induction false} InSpecPorts(spec: string, port: int)
    ensures port in SpecPorts(spec) <==> Denotes(spec, port)
  {
    if '-' in spec {
      var parts := Text.Split(spec, '-');
      if |parts| == 2 {
        Text.SplitInTwo(spec, '-');
        assert port in SpecPorts(spec) <==> Encloses(parts[0], parts[1], port);
      }
      forall x, y | spec == x + "-" + y && Encloses(x, y, port)
        ensures parts == [x, y]
      {
        Text.SplitAtFirst(x, y, '-');
        Text.SplitWithout(y, '-');
      }
    }
  }

  // A port is listed exactly when one of the specifications denotes it;
  // malformed specifications denote nothing.
  lemma {:induction false} PortsExactlyDenoted(specs: seq<string>, port: int)
    requires forall i :: 0 <= i < |specs| ==> !NeverEnds(specs[i])
    ensures port in Ports(specs) <==> exists i :: 0 <= i < |specs| && Denotes(specs[i], port)
  {
    InFlatMap(specs, SpecPorts, port);
    forall i | 0 <= i < |specs| {
      InSpecPorts(specs[i], port);
    }
  }

  // The list is the concatenation of the specifications' ranges, in order.
  lemma {:induction false} PortsInOrder(s1: seq<string>, s2: seq<string>)
    ensures Ports(s1 + s2) == Ports(s1) + Ports(s2)
  {
    FlatMapConcat(s1, s2, SpecPorts);
  }

  // A specification "x-y" stands for the numbers from x to y, one after the
  // other, white space around x and y being allowed; one without a dash for
  // its number; any other for none.
  lemma {:induction false} SpecRangeOf(x: string, y: string, start: int, end: int)
    requires '-' !in x && '-' !in y
    requires Decimal.Atoi(Text.TrimSpace(x)) == Some(start) && Decimal.Atoi(Text.TrimSpace(y)) == Some(end)
    ensures SpecPorts(x + "-" + y) == PortRange(start, end)
    ensures NeverEnds(x + "-" + y) <==> end == Decimal.MAX_INT64
  {
    Text.SplitAtFirst(x, y, '-');
    Text.SplitWithout(y, '-');
    assert Text.Split(x + "-" + y, '-') == [x, y];
    assert (x + "-" + y)[|x|] == '-';
  }

  lemma {:induction false} PortsOfOne(spec: string)
    ensures Ports([spec]) == SpecPorts(spec)
    ensures forall p :: '-' !in spec && Decimal.Atoi(spec) == Some(p) ==> Ports([spec]) == [p]
  {
    FlatMapStep([spec], 0, SpecPorts);
    FlatMapWhole([spec], SpecPorts);
  }

  // A range printed as "start-end" expands to start, start + 1, ..., end.
  lemma {:induction false} PrintedRangeExpands(start: nat, end: nat)
    requires start <= end < Decimal.MAX_INT64
    ensures var spec := Decimal.Print(start) + "-" + Decimal.Print(end);
            !NeverEnds(spec) && Ports([spec]) == PortRange(start, end)
    ensures |PortRange(start, end)| == end - start + 1
    ensures forall i :: 0 <= i < |PortRange(start, end)| ==> PortRange(start, end)[i] == start + i
  {
    var x, y := Decimal.Print(start), Decimal.Print(end);
    NatsPrintBare(start);
    NatsPrintBare(end);
    Decimal.AtoiOfPrint(start);
    Decimal.AtoiOfPrint(end);
    SpecRangeOf(x, y, start, end);
    PortsOfOne(x + "-" + y);
    PortRangeAt(start, end);
  }

  lemma {:induction false} NatsPrintBare(n: nat)
    ensures '-' !in Decimal.Print(n) && Text.TrimSpace(Decimal.Print(n)) == Decimal.Print(n)
  {
    var s := Decimal.Print(n);
    assert Decimal.IsDigit(s[0]) && Decimal.IsDigit(s[|s| - 1]);
    Text.TrimSpaceOf("", s, "");
    assert "" + s + "" == s;
  }

  lemma {:induction false} PortRangeAt(start: int, end: int)
    requires start <= end + 1
    ensures |PortRange(start, end)| == end - start + 1
    ensures forall i :: 0 <= i < |PortRange(start, end)| ==> PortRange(start, end)[i] == start + i
    decreases end - start + 1
  {
    if start <= end {
      PortRangeAt(start, end - 1);
    }
  }
}
