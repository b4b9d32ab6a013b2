/**
The packet filter rules of the macOS kill switch, as a decision list: the last
matching rule decides, and a matching `quick` rule decides at once. Evaluation is
stateless, and rules are values rather than lines of text.
*/
module PfRules {
  import opened Machine
  import opened Prefixes

  datatype Direction = In | Out

  datatype Protocol = Udp | Tcp | OtherProtocol

  datatype Verdict = Pass | Block

  datatype Packet = Packet(
    interface: string, direction: Direction, family: Family, protocol: Protocol,
    source: nat, sourcePort: nat, target: nat, targetPort: nat)

  /** A rule; a field that is `None` matches everything. */
  datatype Rule = Rule(
    verdict: Verdict, quick: bool,
    interface: Option<string>, direction: Option<Direction>, family: Option<Family>, protocol: Option<Protocol>,
    from: Option<Net>, fromPort: Option<nat>, to: Option<Net>, toPort: Option<nat>)
  {
    predicate Matches(p: Packet) {
      && (interface.None? || interface.value == p.interface)
      && (direction.None? || direction.value == p.direction)
      && (family.None? || family.value == p.family)
      && (protocol.None? || protocol.value == p.protocol)
      && (from.None? || from.value.Contains(p.family, p.source))
      && (fromPort.None? || fromPort.value == p.sourcePort)
      && (to.None? || to.value.Contains(p.family, p.target))
      && (toPort.None? || toPort.value == p.targetPort)
    }
  }

  /** The verdict on `p` of `rules`, when the rules before them have left `current`. */
  function Evaluate(rules: seq<Rule>, p: Packet, current: Verdict): Verdict {
    if rules == [] then current
    else if !rules[0].Matches(p) then Evaluate(rules[1..], p, current)
    else if rules[0].quick then rules[0].verdict
    else Evaluate(rules[1..], p, rules[0].verdict)
  }

  // ---- The generated rules ----

  const Everything := Rule(Pass, true, None, None, None, None, None, None, None, None)

  const BlockAll := Everything.(verdict := Block, quick := false)

  function PassOn(interface: string): Rule { Everything.(interface := Some(interface)) }

  function UdpPorts(d: Direction, from: nat, to: nat): Rule {
    Everything.(direction := Some(d), protocol := Some(Udp), fromPort := Some(from), toPort := Some(to))
  }

  function ToServer(f: Family, server: nat, port: nat): Rule {
    Everything.(direction := Some(Out), family := Some(f), protocol := Some(Udp), to := Some(Host(f, server)), toPort := Some(port))
  }

  function FromServer(f: Family, server: nat, port: nat): Rule {
    Everything.(direction := Some(In), family := Some(f), protocol := Some(Udp), from := Some(Host(f, server)), fromPort := Some(port))
  }

  function LanOut(net: Net): Rule { Everything.(direction := Some(Out), family := Some(net.family), to := Some(net)) }

  function LanIn(net: Net): Rule { Everything.(direction := Some(In), family := Some(net.family), from := Some(net)) }

  function BlockMdns(group: Net): Rule {
    Everything.(verdict := Block, protocol := Some(Udp), to := Some(group), toPort := Some(5353))
  }

  const BlockDot := Everything.(verdict := Block, direction := Some(Out), protocol := Some(Tcp), toPort := Some(853))

  function BlockDoh(f: Family, provider: nat): Rule {
    Everything.(verdict := Block, direction := Some(Out), family := Some(f), protocol := Some(Tcp),
                to := Some(Host(f, provider)), toPort := Some(443))
  }

  /** 224.0.0.251 and ff02::fb. */
  const MDNS_V4 := Host(Inet, 0xE000_00FB)
  const MDNS_V6 := Host(Inet6, 0xff02_0000_0000_0000_0000_0000_0000_00fb)

  const DOH_PROVIDERS_V4: seq<nat> := [
    0x8080808, 0x8080404, 0x1010101, 0x1000001, 0x9090909, 0x95707070, 0xd043dede,
    0xd043dcdc, 0x5e8c0e0e, 0x5e8c0f0f, 0x2d5a1c00, 0x2d5a1e00, 0xb9e4a8a8, 0xb9e4a9a8
  ]

  const DOH_PROVIDERS_V6: seq<nat> := [
    0x2001_4860_4860_0000_0000_0000_0000_8888,
    0x2001_4860_4860_0000_0000_0000_0000_8844,
    0x2606_4700_4700_0000_0000_0000_0000_1111,
    0x2606_4700_4700_0000_0000_0000_0000_1001,
    0x2620_00fe_0000_0000_0000_0000_0000_00fe,
    0x2620_00fe_0000_0000_0000_0000_0000_0009,
    0x2620_0119_0035_0000_0000_0000_0000_0035,
    0x2620_0119_0053_0000_0000_0000_0000_0053,
    0x2a10_50c0_0000_0000_0000_0000_0ad1_00ff,
    0x2a10_50c0_0000_0000_0000_0000_0ad2_00ff
  ]

  datatype Config = Config(vpnInterface: string, serverFamily: Family, server: nat, serverPort: nat, allowLan: bool)

  function HeadRules(c: Config): seq<Rule> {
    [PassOn("lo0"), UdpPorts(Out, 68, 67), UdpPorts(In, 67, 68),
     ToServer(c.serverFamily, c.server, c.serverPort), FromServer(c.serverFamily, c.server, c.serverPort),
     PassOn(c.vpnInterface)]
  }

  function LanRules(nets: seq<Net>): seq<Rule> {
    if nets == [] then [] else LanRules(nets[..|nets| - 1]) + [LanOut(nets[|nets| - 1]), LanIn(nets[|nets| - 1])]
  }

  function DohRules(f: Family, providers: seq<nat>): seq<Rule> {
    seq(|providers|, i requires 0 <= i < |providers| => BlockDoh(f, providers[i]))
  }

  function TailRules(): seq<Rule> {
    [BlockMdns(MDNS_V4), BlockMdns(MDNS_V6), BlockDot] + DohRules(Inet, DOH_PROVIDERS_V4) + DohRules(Inet6, DOH_PROVIDERS_V6)
  }

  function WithLan(head: seq<Rule>, v4: seq<Net>, v6: seq<Net>, allowLan: bool): seq<Rule> {
    head + if allowLan then LanRules(v4) + LanRules(v6) else []
  }

  function PassRules(c: Config): seq<Rule> { WithLan(HeadRules(c), LAN_SUBNETS, LAN_SUBNETS_V6, c.allowLan) }

  /** `build_rules`, appending rule by rule. */
  method BuildRules(c: Config) returns (rules: seq<Rule>)
    ensures rules == [BlockAll] + PassRules(c) + TailRules()
  {
    rules := [BlockAll] + HeadRules(c);
    if c.allowLan {
      rules := AppendLan(rules, LAN_SUBNETS);
      rules := AppendLan(rules, LAN_SUBNETS_V6);
    }
    rules := rules + [BlockMdns(MDNS_V4), BlockMdns(MDNS_V6), BlockDot];
    rules := AppendDoh(rules, Inet, DOH_PROVIDERS_V4);
    rules := AppendDoh(rules, Inet6, DOH_PROVIDERS_V6);
  }

  method AppendLan(rules: seq<Rule>, nets: seq<Net>) returns (r: seq<Rule>)
    ensures r == rules + LanRules(nets)
  {
    r := rules;
    for i := 0 to |nets|
      invariant r == rules + LanRules(nets[..i])
    {
      assert nets[..i + 1][..i] == nets[..i];
      r := r + [LanOut(nets[i])];
      r := r + [LanIn(nets[i])];
    }
    assert nets[..|nets|] == nets;
  }

  method AppendDoh(rules: seq<Rule>, f: Family, providers: seq<nat>) returns (r: seq<Rule>)
    ensures r == rules + DohRules(f, providers)
  {
    r := rules;
    for i := 0 to |providers|
      invariant r == rules + DohRules(f, providers)[..i]
    {
      r := r + [BlockDoh(f, providers[i])];
    }
  }

  // ---- What they let through ----

  predicate AnyMatch(rules: seq<Rule>, p: Packet) { exists i :: 0 <= i < |rules| && rules[i].Matches(p) }

  predicate AllPass(rules: seq<Rule>) { forall i :: 0 <= i < |rules| ==> rules[i].quick && rules[i].verdict == Pass }

  /** In front of anything, quick rules that pass decide every packet one of them matches and no other. */
  lemma {:induction false} PassListDecides(passes: seq<Rule>, rest: seq<Rule>, p: Packet, current: Verdict)
    requires AllPass(passes)
    ensures Evaluate(passes + rest, p, current) == if AnyMatch(passes, p) then Pass else Evaluate(rest, p, current)
  {
    if passes == [] {
      assert passes + rest == rest;
    } else {
      assert (passes + rest)[1..] == passes[1..] + rest;
      PassListDecides(passes[1..], rest, p, current);
      assert AnyMatch(passes, p) <==> passes[0].Matches(p) || AnyMatch(passes[1..], p) by {
        if i :| 0 <= i < |passes| && passes[i].Matches(p) && i > 0 { assert passes[1..][i - 1].Matches(p); }
        if i :| 0 <= i < |passes[1..]| && passes[1..][i].Matches(p) { assert passes[i + 1].Matches(p); }
      }
    }
  }

  lemma {:induction false} BlockListBlocks(blocks: seq<Rule>, p: Packet)
    requires forall i :: 0 <= i < |blocks| ==> blocks[i].verdict == Block
    ensures Evaluate(blocks, p, Block) == Block
  {
    if blocks != [] { BlockListBlocks(blocks[1..], p); }
  }

  /** DHCP, in either direction. */
  predicate IsDhcp(p: Packet) {
    p.protocol == Udp && if p.direction == Out then p.sourcePort == 68 && p.targetPort == 67 else p.sourcePort == 67 && p.targetPort == 68
  }

  /** UDP to or from the VPN server's endpoint. */
  predicate IsServerTraffic(c: Config, p: Packet) {
    p.protocol == Udp && p.family == c.serverFamily &&
    if p.direction == Out then p.target == c.server && p.targetPort == c.serverPort
    else p.source == c.server && p.sourcePort == c.serverPort
  }

  /** The far end is on the local network. */
  predicate IsLan(p: Packet) {
    var far := if p.direction == Out then p.target else p.source;
    InAny(LAN_SUBNETS, p.family, far) || InAny(LAN_SUBNETS_V6, p.family, far)
  }

  /** The local network, by leading bits: 10, 172.16 to 172.31, 192.168 and 169.254; fe80::/10 and fc00::/7. */
  lemma {:induction false} LanExactly(p: Packet)
    ensures IsLan(p) <==>
      var far := if p.direction == Out then p.target else p.source;
      if p.family == Inet then
        far / 0x100_0000 == 10 || far / 0x10_0000 == 0xAC1 || far / 0x1_0000 == 0xC0A8 || far / 0x1_0000 == 0xA9FE
      else
        far / 0x40_0000_0000_0000_0000_0000_0000_0000 == 0x3FA || far / 0x200_0000_0000_0000_0000_0000_0000_0000 == 0x7E
  {
    var far := if p.direction == Out then p.target else p.source;
    LanAddresses(far);
    LanAddresses6(far);
  }

  predicate Allowed(c: Config, p: Packet) {
    p.interface == "lo0" || IsDhcp(p) || IsServerTraffic(c, p) || p.interface == c.vpnInterface || (c.allowLan && IsLan(p))
  }

  lemma {:induction false} HeadMatches(c: Config, p: Packet)
    ensures AnyMatch(HeadRules(c), p)
       <==> p.interface == "lo0" || IsDhcp(p) || IsServerTraffic(c, p) || p.interface == c.vpnInterface
  {
    var r := HeadRules(c);
    HostContainsItself(c.serverFamily, c.server, p.target);
    HostContainsItself(c.serverFamily, c.server, p.source);
    assert r[0].Matches(p) <==> p.interface == "lo0";
    assert r[1].Matches(p) || r[2].Matches(p) <==> IsDhcp(p);
    assert r[3].Matches(p) || r[4].Matches(p) <==> IsServerTraffic(c, p);
    assert r[5].Matches(p) <==> p.interface == c.vpnInterface;
  }

  lemma {:induction false} LanMatches(nets: seq<Net>, p: Packet)
    ensures AnyMatch(LanRules(nets), p) <==> InAny(nets, p.family, if p.direction == Out then p.target else p.source)
    ensures AllPass(LanRules(nets))
  {
    if nets != [] {
      var init, last := nets[..|nets| - 1], nets[|nets| - 1];
      LanMatches(init, p);
      AnyMatchConcat(LanRules(init), [LanOut(last), LanIn(last)], p);
      var far := if p.direction == Out then p.target else p.source;
      assert [LanOut(last), LanIn(last)][0] == LanOut(last) && [LanOut(last), LanIn(last)][1] == LanIn(last);
      assert AnyMatch([LanOut(last), LanIn(last)], p) <==> last.Contains(p.family, far);
      assert nets == init + [last];
      assert InAny(nets, p.family, far) <==> InAny(init, p.family, far) || last.Contains(p.family, far);
    }
  }

  lemma {:induction false} AnyMatchConcat(a: seq<Rule>, b: seq<Rule>, p: Packet)
    ensures AnyMatch(a + b, p) <==> AnyMatch(a, p) || AnyMatch(b, p)
  {
    if AnyMatch(b, p) {
      var i :| 0 <= i < |b| && b[i].Matches(p);
      assert (a + b)[|a| + i].Matches(p);
    }
    if AnyMatch(a, p) {
      var i :| 0 <= i < |a| && a[i].Matches(p);
      assert (a + b)[i].Matches(p);
    }
  }

  lemma {:induction false} WithLanMatches(head: seq<Rule>, v4: seq<Net>, v6: seq<Net>, allowLan: bool, p: Packet)
    requires AllPass(head)
    ensures AnyMatch(WithLan(head, v4, v6, allowLan), p)
       <==> AnyMatch(head, p) || (allowLan && var far := if p.direction == Out then p.target else p.source;
              InAny(v4, p.family, far) || InAny(v6, p.family, far))
    ensures AllPass(WithLan(head, v4, v6, allowLan))
  {
    LanMatches(v4, p);
    LanMatches(v6, p);
    AnyMatchConcat(LanRules(v4), LanRules(v6), p);
    AnyMatchConcat(head, if allowLan then LanRules(v4) + LanRules(v6) else [], p);
  }

  lemma {:induction false} PassRulesMatch(c: Config, p: Packet)
    ensures AnyMatch(PassRules(c), p) <==> Allowed(c, p)
    ensures AllPass(PassRules(c))
  {
    HeadMatches(c, p);
    WithLanMatches(HeadRules(c), LAN_SUBNETS, LAN_SUBNETS_V6, c.allowLan, p);
  }

  /** The generated list passes exactly the allowed packets, whether or not it ends in the mDNS, DoT and DoH blocks. */
  lemma {:induction false} RulesExact(c: Config, p: Packet)
    ensures Evaluate([BlockAll] + PassRules(c) + TailRules(), p, Pass) == Pass <==> Allowed(c, p)
    ensures Evaluate([BlockAll] + PassRules(c), p, Pass) == Evaluate([BlockAll] + PassRules(c) + TailRules(), p, Pass)
  {
    PassRulesMatch(c, p);
    DefaultDeny(PassRules(c), TailRules(), p);
  }

  /** A list that first blocks everything passes what one of its pass rules matches, if only block rules follow them. */
  lemma {:induction false} DefaultDeny(passes: seq<Rule>, blocks: seq<Rule>, p: Packet)
    requires AllPass(passes) && forall i :: 0 <= i < |blocks| ==> blocks[i].verdict == Block
    ensures Evaluate([BlockAll] + passes + blocks, p, Pass) == (if AnyMatch(passes, p) then Pass else Block)
    ensures Evaluate([BlockAll] + passes, p, Pass) == (if AnyMatch(passes, p) then Pass else Block)
  {
    PassListDecides(passes, blocks, p, Block);
    PassListDecides(passes, [], p, Block);
    BlockListBlocks(blocks, p);
    assert ([BlockAll] + passes + blocks)[1..] == passes + blocks;
    assert ([BlockAll] + passes)[1..] == passes == passes + [];
  }

  /** Which packets the blocks at the end are about: multicast DNS, DNS over TLS, and DNS over HTTPS to the listed resolvers. */
  lemma {:induction false} TailExactly(p: Packet)
    ensures AnyMatch(TailRules(), p) <==>
      || (p.protocol == Udp && p.targetPort == 5353 && p.family == Inet && p.target == 0xE000_00FB)
      || (p.protocol == Udp && p.targetPort == 5353 && p.family == Inet6 && p.target == 0xff02_0000_0000_0000_0000_0000_0000_00fb)
      || (p.protocol == Tcp && p.direction == Out && p.targetPort == 853)
      || (p.protocol == Tcp && p.direction == Out && p.targetPort == 443 && p.family == Inet && p.target in DOH_PROVIDERS_V4)
      || (p.protocol == Tcp && p.direction == Out && p.targetPort == 443 && p.family == Inet6 && p.target in DOH_PROVIDERS_V6)
  {
    var head := [BlockMdns(MDNS_V4), BlockMdns(MDNS_V6), BlockDot];
    AnyMatchConcat(head + DohRules(Inet, DOH_PROVIDERS_V4), DohRules(Inet6, DOH_PROVIDERS_V6), p);
    AnyMatchConcat(head, DohRules(Inet, DOH_PROVIDERS_V4), p);
    DohMatches(Inet, DOH_PROVIDERS_V4, p);
    DohMatches(Inet6, DOH_PROVIDERS_V6, p);
    HostContainsItself(Inet, 0xE000_00FB, p.target);
    HostContainsItself(Inet6, 0xff02_0000_0000_0000_0000_0000_0000_00fb, p.target);
    assert AnyMatch(head, p) <==> head[0].Matches(p) || head[1].Matches(p) || head[2].Matches(p);
  }

  lemma {:induction false} DohMatches(f: Family, providers: seq<nat>, p: Packet)
    ensures AnyMatch(DohRules(f, providers), p) <==>
      p.protocol == Tcp && p.direction == Out && p.targetPort == 443 && p.family == f && p.target in providers
  {
    forall i | 0 <= i < |providers|
      ensures DohRules(f, providers)[i].Matches(p) <==>
        p.protocol == Tcp && p.direction == Out && p.targetPort == 443 && p.family == f && p.target == providers[i]
    {
      HostContainsItself(f, providers[i], p.target);
    }
    if p.protocol == Tcp && p.direction == Out && p.targetPort == 443 && p.family == f && p.target in providers {
      var i :| 0 <= i < |providers| && providers[i] == p.target;
      assert DohRules(f, providers)[i].Matches(p);
    }
  }

  /**
   The source says that mDNS is blocked even where the local network is allowed.
   Away from the loopback and the tunnel, and not DHCP or server traffic, an mDNS
   packet is blocked if and only if the local network is not allowed or the packet
   is not to or from a local address: one arriving from a local host passes.
  */
  lemma {:induction false} MdnsBlockedExactly(c: Config, p: Packet)
    requires BlockMdns(MDNS_V4).Matches(p) || BlockMdns(MDNS_V6).Matches(p)
    requires p.interface != "lo0" && p.interface != c.vpnInterface && !IsDhcp(p) && !IsServerTraffic(c, p)
    ensures Evaluate([BlockAll] + PassRules(c) + TailRules(), p, Pass) == Block <==> !(c.allowLan && IsLan(p))
  {
    RulesExact(c, p);
  }

  /** 192.168.1.7 multicasting from port 5353 on a physical interface, with the local network allowed. */
  lemma {:induction false} LanMdnsPasses(c: Config)
    requires c.allowLan
    ensures var p := Packet("en0", In, Inet, Udp, 0xC0A8_0107, 5353, 0xE000_00FB, 5353);
      BlockMdns(MDNS_V4).Matches(p) && Evaluate([BlockAll] + PassRules(c) + TailRules(), p, Pass) == Pass
  {
    var p := Packet("en0", In, Inet, Udp, 0xC0A8_0107, 5353, 0xE000_00FB, 5353);
    HostContainsItself(Inet, 0xE000_00FB, 0xE000_00FB);
    assert LAN_SUBNETS[2].Contains(Inet, p.source) by {
      assert Pow2(8) == 256;
      Pow2Divides(8, 16);
    }
    RulesExact(c, p);
  }
}
