/**
Full-tunnel routing of the macOS client: what set-up puts in the routing table,
where the table then sends packets, and what tear-down gives back.
*/
module Routing {
  import opened Machine
  import opened Prefixes

  datatype Hop = Hop(gateway: nat, interface: string)

  type Table = map<Net, Hop>

  function Default(f: Family): Net { Net(f, 0, 0) }

  /** 0.0.0.0/1 and ::/1. */
  function LowHalf(f: Family): Net { Net(f, 0, 1) }

  /** 128.0.0.0/1 and 8000::/1. */
  function HighHalf(f: Family): Net { Net(f, Pow2(Width(f) - 1), 1) }

  function Members(nets: seq<Net>): set<Net> { set d | d in nets }

  /** `hop` for each of `nets`. */
  function Via(nets: seq<Net>, hop: Hop): Table { map d | d in nets :: hop }

  /**
   The system's table behind the `route` command. The commands are numbered as they
   are issued. Those in `failures` cannot be run, and those in `refusals` run and exit
   with an error; neither changes the table.
  */
  class RouteCommand {
    var table: Table
    var issued: nat
    const failures: set<nat>
    const refusals: set<nat>

    constructor (table: Table, failures: set<nat>, refusals: set<nat>)
      ensures this.table == table && this.failures == failures && this.refusals == refusals && issued == 0
    {
      this.table, this.failures, this.refusals, issued := table, failures, refusals, 0;
    }

    /** Every later command does what it is asked. */
    ghost predicate Reliable() reads this { forall n :: n in failures + refusals ==> n < issued }

    /** Adding a destination that is in the table changes nothing, and is not an error. */
    method Add(d: Net, hop: Hop, ghost scope: set<Net>) returns (ok: bool)
      requires d in scope
      modifies this
      ensures issued == old(issued) + 1
      ensures ok <==> old(issued) !in failures + refusals
      ensures table == if ok then map[d := hop] + old(table) else old(table)
      ensures table - scope == old(table) - scope
    {
      ok := issued !in failures + refusals;
      issued := issued + 1;
      if ok && d !in table { table := table[d := hop]; }
    }

    /** Deleting is an error only where the command cannot be run: a refusal is not reported. */
    method Delete(d: Net, ghost scope: set<Net>) returns (ok: bool)
      requires d in scope
      modifies this
      ensures issued == old(issued) + 1
      ensures ok <==> old(issued) !in failures
      ensures table == if old(issued) in failures + refusals then old(table) else old(table) - {d}
      ensures table - scope == old(table) - scope
    {
      ok := issued !in failures;
      if issued !in failures + refusals { table := table - {d}; }
      issued := issued + 1;
    }

    method Get(d: Net) returns (r: Option<Hop>)
      modifies this`issued
      ensures issued == old(issued) + 1
      ensures r == if old(issued) !in failures + refusals && d in table then Some(table[d]) else None
    {
      r := if issued !in failures + refusals && d in table then Some(table[d]) else None;
      issued := issued + 1;
    }

    /** Adds each of `nets`, carrying on after a failure. */
    method AddAll(nets: seq<Net>, hop: Hop, ghost scope: set<Net>)
      requires Members(nets) <= scope
      modifies this
      ensures issued == old(issued) + |nets|
      ensures old(Reliable()) ==> table == Via(nets, hop) + old(table)
      ensures table - scope == old(table) - scope
    {
      for i := 0 to |nets|
        invariant issued == old(issued) + i
        invariant old(Reliable()) ==> table == Via(nets[..i], hop) + old(table)
        invariant table - scope == old(table) - scope
      {
        assert nets[i] in Members(nets);
        var _ := Add(nets[i], hop, scope);
        assert Via(nets[..i + 1], hop) + old(table) == map[nets[i] := hop] + (Via(nets[..i], hop) + old(table));
      }
      assert nets[..|nets|] == nets;
    }

    method DeleteAll(nets: seq<Net>, ghost scope: set<Net>)
      requires Members(nets) <= scope
      modifies this
      ensures issued == old(issued) + |nets|
      ensures old(Reliable()) ==> table == old(table) - Members(nets)
      ensures table - scope == old(table) - scope
    {
      for i := 0 to |nets|
        invariant issued == old(issued) + i
        invariant old(Reliable()) ==> table == old(table) - Members(nets[..i])
        invariant table - scope == old(table) - scope
      {
        assert nets[i] in Members(nets);
        var _ := Delete(nets[i], scope);
        assert Members(nets[..i + 1]) == Members(nets[..i]) + {nets[i]};
      }
      assert nets[..|nets|] == nets;
    }
  }

  // ---- What the client asks for ----

  datatype Settings = Settings(
    interface: string, gateway: nat, server: nat, killSwitch: bool, allowLan: bool,
    ipv6Enabled: bool, gatewayV6: Option<nat>)

  function Server(s: Settings): Net { Host(Inet, s.server) }

  function Lan(f: Family, wanted: bool): seq<Net> {
    if !wanted then [] else if f == Inet then LAN_SUBNETS else LAN_SUBNETS_V6
  }

  /** Routes for the server, the local network and the two halves of the address space. */
  function Around(server: seq<Net>, lan: seq<Net>, original: Hop, low: Net, high: Net, tunnel: Hop): Table {
    map[high := tunnel] + map[low := tunnel] + Via(lan, original) + Via(server, original)
  }

  function Routes4(s: Settings, original: Hop): Table {
    Around([Server(s)], Lan(Inet, s.killSwitch && s.allowLan), original,
           LowHalf(Inet), HighHalf(Inet), Hop(s.gateway, s.interface))
  }

  /** The same for IPv6, where there is no server to go around and perhaps no original hop. */
  function Around6(lan: seq<Net>, original: Option<Hop>, low: Net, high: Net, tunnel: Hop): Table {
    if original.None? then map[high := tunnel] + map[low := tunnel]
    else Via(lan, original.value) + map[high := tunnel] + map[low := tunnel]
  }

  predicate Tunnels6(s: Settings) { s.ipv6Enabled && s.gatewayV6.Some? }

  function Routes6(s: Settings, original: Option<Hop>): Table
    requires Tunnels6(s)
  {
    Around6(Lan(Inet6, s.killSwitch && s.allowLan), original,
            LowHalf(Inet6), HighHalf(Inet6), Hop(s.gatewayV6.value, s.interface))
  }

  /** The table after set-up: routes that were there stay, except for the IPv4 default, and win over set-up's own. */
  function Established(s: Settings, original: Hop, originalV6: Option<Hop>, t: Table): Table {
    var inet := Routes4(s, original) + (t - {Default(Inet)});
    if Tunnels6(s) then Routes6(s, originalV6) + inet else inet
  }

  lemma LanIsSpecific(f: Family, wanted: bool)
    ensures forall d :: d in Lan(f, wanted) ==> d.family == f && d.len > 1
  {
  }

  function Removed4(s: Settings, lan: bool): set<Net> {
    {LowHalf(Inet), HighHalf(Inet), Server(s)} + Members(Lan(Inet, lan))
  }

  function Removed6(lan: bool): set<Net> { {LowHalf(Inet6), HighHalf(Inet6)} + Members(Lan(Inet6, lan)) }

  /** The destinations a tear-down deletes, with those of the local network or without. */
  function Removed(s: Settings, lan: bool): set<Net> {
    if s.ipv6Enabled then Removed4(s, lan) + Removed6(lan) else Removed4(s, lan)
  }

  function SetUpScope(s: Settings): set<Net> { Removed(s, s.killSwitch && s.allowLan) + {Default(Inet)} }

  function TearDownScope(s: Settings, lan: bool): set<Net> {
    Removed(s, lan) + {Default(Inet)} + if s.ipv6Enabled then {Default(Inet6)} else {}
  }

  // ---- The same destinations, written out ----

  /** 0.0.0.0/1, 128.0.0.0/1 and the server; with IPv6, also ::/1 and 8000::/1. */
  predicate TunnelRoute(s: Settings, d: Net) {
    || d == Net(Inet, 0, 1) || d == Net(Inet, 0x8000_0000, 1) || d == Net(Inet, s.server, 32)
    || (s.ipv6Enabled && (d == Net(Inet6, 0, 1) || d == Net(Inet6, 0x8000_0000_0000_0000_0000_0000_0000_0000, 1)))
  }

  /** 10.0.0.0/8, 172.16.0.0/12, 192.168.0.0/16 and 169.254.0.0/16. */
  predicate LocalInet(d: Net) {
    || d == Net(Inet, 0x0A00_0000, 8) || d == Net(Inet, 0xAC10_0000, 12)
    || d == Net(Inet, 0xC0A8_0000, 16) || d == Net(Inet, 0xA9FE_0000, 16)
  }

  /** fe80::/10 and fc00::/7. */
  predicate LocalInet6(d: Net) {
    d == Net(Inet6, 0xfe80_0000_0000_0000_0000_0000_0000_0000, 10) || d == Net(Inet6, 0xfc00_0000_0000_0000_0000_0000_0000_0000, 7)
  }

  predicate LocalRoute(s: Settings, d: Net) { LocalInet(d) || (s.ipv6Enabled && LocalInet6(d)) }

  /** 0.0.0.0/0; with IPv6, also ::/0. */
  predicate DefaultRoute(s: Settings, d: Net) { d == Net(Inet, 0, 0) || (s.ipv6Enabled && d == Net(Inet6, 0, 0)) }

  lemma {:induction false} RemovedExactly(s: Settings, lan: bool, d: Net)
    ensures d in Removed(s, lan) <==> TunnelRoute(s, d) || (lan && LocalRoute(s, d))
    ensures d in TearDownScope(s, lan) <==> TunnelRoute(s, d) || (lan && LocalRoute(s, d)) || DefaultRoute(s, d)
    ensures d in SetUpScope(s) <==> TunnelRoute(s, d) || (s.killSwitch && s.allowLan && LocalRoute(s, d)) || d == Net(Inet, 0, 0)
  {
    RemovedMembers(s, lan, d);
    RemovedMembers(s, s.killSwitch && s.allowLan, d);
  }

  lemma {:induction false} RemovedMembers(s: Settings, lan: bool, d: Net)
    ensures d in Removed(s, lan) <==> TunnelRoute(s, d) || (lan && LocalRoute(s, d))
  {
    Removed4Members(s, lan, d);
    Removed6Members(lan, d);
  }

  lemma {:induction false} Removed4Members(s: Settings, lan: bool, d: Net)
    ensures d in Removed4(s, lan) <==>
      d == Net(Inet, 0, 1) || d == Net(Inet, 0x8000_0000, 1) || d == Net(Inet, s.server, 32) || (lan && LocalInet(d))
  {
    Pow2Values();
    LanMembers(lan, d);
  }

  lemma {:induction false} Removed6Members(lan: bool, d: Net)
    ensures d in Removed6(lan) <==>
      d == Net(Inet6, 0, 1) || d == Net(Inet6, 0x8000_0000_0000_0000_0000_0000_0000_0000, 1) || (lan && LocalInet6(d))
  {
    Pow2Values();
    LanMembers(lan, d);
  }

  lemma {:induction false} LanMembers(lan: bool, d: Net)
    ensures d in Members(Lan(Inet, lan)) <==> lan && LocalInet(d)
    ensures d in Members(Lan(Inet6, lan)) <==> lan && LocalInet6(d)
  {
  }

  ghost predicate SameEntry(t: Table, u: Table, d: Net) { (d in t <==> d in u) && (d in t ==> t[d] == u[d]) }

  /** What a tear-down leaves alone, whatever commands fail. */
  lemma {:induction false} LeftAlone(s: Settings, lan: bool, t: Table, u: Table)
    requires t - TearDownScope(s, lan) == u - TearDownScope(s, lan)
    ensures forall d :: !TunnelRoute(s, d) && !(lan && LocalRoute(s, d)) && !DefaultRoute(s, d) ==> SameEntry(t, u, d)
  {
    forall d | !TunnelRoute(s, d) && !(lan && LocalRoute(s, d)) && !DefaultRoute(s, d)
      ensures SameEntry(t, u, d)
    {
      RemovedExactly(s, lan, d);
      SameOutside(t, u, TearDownScope(s, lan), d);
    }
  }

  lemma {:induction false} SetUpLeavesAlone(s: Settings, t: Table, u: Table)
    requires t - SetUpScope(s) == u - SetUpScope(s)
    ensures forall d :: !TunnelRoute(s, d) && !(s.killSwitch && s.allowLan && LocalRoute(s, d)) && d != Net(Inet, 0, 0) ==> SameEntry(t, u, d)
  {
    forall d | !TunnelRoute(s, d) && !(s.killSwitch && s.allowLan && LocalRoute(s, d)) && d != Net(Inet, 0, 0)
      ensures SameEntry(t, u, d)
    {
      RemovedExactly(s, s.allowLan, d);
      SameOutside(t, u, SetUpScope(s), d);
    }
  }

  /** What is left for each destination after a tear-down whose commands all work. */
  lemma {:induction false} TornDownExactly(s: Settings, lan: bool, t: Table, hop: Option<Hop>, hopV6: Option<Hop>, d: Net)
    ensures var u := WithBoth(t - Removed(s, lan), hop, hopV6);
      if TunnelRoute(s, d) || (lan && LocalRoute(s, d)) then d !in u
      else if d == Net(Inet, 0, 0) && hop.Some? then d in u && u[d] == hop.value
      else if d == Net(Inet6, 0, 0) && hopV6.Some? then d in u && u[d] == hopV6.value
      else SameEntry(t, u, d)
  {
    RemovedMembers(s, lan, d);
    NoDefaultRemoved(s, lan, Default(Inet));
    NoDefaultRemoved(s, lan, Default(Inet6));
    LeftOf(t, Removed(s, lan), hop, hopV6, d);
  }

  lemma {:induction false} LeftOf(t: Table, removed: set<Net>, hop: Option<Hop>, hopV6: Option<Hop>, d: Net)
    requires Default(Inet) !in removed && Default(Inet6) !in removed
    ensures var u := WithBoth(t - removed, hop, hopV6);
      if d in removed then d !in u
      else if d == Default(Inet) && hop.Some? then d in u && u[d] == hop.value
      else if d == Default(Inet6) && hopV6.Some? then d in u && u[d] == hopV6.value
      else SameEntry(t, u, d)
  {
  }

  /** `t` with `hop`, if there is one, as the only route to `d`. */
  function Restored(t: Table, d: Net, hop: Option<Hop>): Table { if hop.None? then t else t[d := hop.value] }

  lemma MergeAssociates(a: Table, b: Table, c: Table)
    ensures (a + b) + c == a + (b + c)
  {
  }

  lemma {:induction false} AroundInSteps(t: Table, default: Net, server: Net, lan: Table, original: Hop, low: Net, high: Net, tunnel: Hop)
    requires default != server
    ensures map[high := tunnel] + (map[low := tunnel] + (lan + ((map[server := original] + t) - {default})))
         == (map[high := tunnel] + map[low := tunnel] + lan + Via([server], original)) + (t - {default})
  {
    var first, second, third, rest := map[high := tunnel], map[low := tunnel], Via([server], original), t - {default};
    assert third == map[server := original];
    assert (map[server := original] + t) - {default} == third + rest;
    MergeAssociates(first, second, lan);
    MergeAssociates(first + second, lan, third);
    MergeAssociates(first + second, lan + third, rest);
    MergeAssociates(lan, third, rest);
    MergeAssociates(first, second, lan + (third + rest));
  }

  function WithBoth(t: Table, hop: Option<Hop>, hopV6: Option<Hop>): Table {
    Restored(Restored(t, Default(Inet), hop), Default(Inet6), hopV6)
  }

  /** Adds the routes of `Around` in place of `default`, stopping at a failure outside the local network. */
  method AddAround(
      route: RouteCommand, default: Net, server: Net, lan: seq<Net>, original: Hop,
      low: Net, high: Net, tunnel: Hop, ghost scope: set<Net>) returns (ok: bool, deleted: bool)
    requires {default, server, low, high} + Members(lan) <= scope && default != server
    modifies route
    ensures route.table - scope == old(route.table) - scope
    ensures old(route.Reliable()) ==> ok && deleted && route.Reliable()
    ensures old(route.Reliable()) ==>
      route.table == Around([server], lan, original, low, high, tunnel) + (old(route.table) - {default})
  {
    AroundInSteps(route.table, default, server, Via(lan, original), original, low, high, tunnel);
    ok := route.Add(server, original, scope);
    if !ok { return false, false; }
    deleted := route.Delete(default, scope);
    route.AddAll(lan, original, scope);
    ok := route.Add(low, tunnel, scope);
    if !ok { return; }
    ok := route.Add(high, tunnel, scope);
  }

  lemma {:induction false} InSteps6(t: Table, low: Net, high: Net, tunnel: Hop, lan: Table)
    ensures lan + (map[high := tunnel] + (map[low := tunnel] + t)) == (lan + map[high := tunnel] + map[low := tunnel]) + t
    ensures map[high := tunnel] + (map[low := tunnel] + t) == (map[high := tunnel] + map[low := tunnel]) + t
  {
    MergeAssociates(map[high := tunnel], map[low := tunnel], t);
    MergeAssociates(lan, map[high := tunnel], map[low := tunnel] + t);
    MergeAssociates(lan + map[high := tunnel], map[low := tunnel], t);
  }

  method AddInet6(
      route: RouteCommand, lan: seq<Net>, original: Option<Hop>, low: Net, high: Net, tunnel: Hop, ghost scope: set<Net>)
    returns (ok: bool)
    requires {low, high} + Members(lan) <= scope
    modifies route
    ensures route.table - scope == old(route.table) - scope
    ensures old(route.Reliable()) ==> ok && route.Reliable()
    ensures old(route.Reliable()) ==> route.table == Around6(lan, original, low, high, tunnel) + old(route.table)
  {
    InSteps6(route.table, low, high, tunnel, if original.None? then map[] else Via(lan, original.value));
    ok := route.Add(low, tunnel, scope);
    if !ok { return; }
    ok := route.Add(high, tunnel, scope);
    if !ok { return; }
    if original.Some? { route.AddAll(lan, original.value, scope); }
  }

  method DeleteAround(route: RouteCommand, low: Net, high: Net, server: seq<Net>, lan: seq<Net>, ghost scope: set<Net>)
    requires {low, high} + Members(server) + Members(lan) <= scope && |server| <= 1
    modifies route
    ensures route.table - scope == old(route.table) - scope
    ensures old(route.Reliable()) ==> route.Reliable()
    ensures old(route.Reliable()) ==> route.table == old(route.table) - ({low, high} + Members(server) + Members(lan))
  {
    var _ := route.Delete(low, scope);
    var _ := route.Delete(high, scope);
    route.DeleteAll(server, scope);
    route.DeleteAll(lan, scope);
    ghost var t := old(route.table);
    assert t - {low} - {high} - Members(server) - Members(lan) == t - ({low, high} + Members(server) + Members(lan));
  }

  /** Deletes whatever routes to `d` and adds `hop`. */
  method Replace(route: RouteCommand, d: Net, hop: Hop, ghost scope: set<Net>) returns (ok: bool)
    requires d in scope
    modifies route
    ensures route.table - scope == old(route.table) - scope
    ensures old(route.Reliable()) ==> ok && route.Reliable()
    ensures old(route.Reliable()) ==> route.table == old(route.table)[d := hop]
  {
    var _ := route.Delete(d, scope);
    ok := route.Add(d, hop, scope);
  }

  lemma {:induction false} Widen(t: Table, u: Table, narrow: set<Net>, wide: set<Net>)
    requires t - narrow == u - narrow && narrow <= wide
    ensures t - wide == u - wide
  {
    assert t - wide == (t - narrow) - wide;
    assert u - wide == (u - narrow) - wide;
  }

  lemma {:induction false} SameOutside(t: Table, u: Table, scope: set<Net>, d: Net)
    requires t - scope == u - scope && d !in scope
    ensures d in t <==> d in u
    ensures d in t ==> t[d] == u[d]
  {
    assert d in t <==> d in t - scope;
    assert d in u <==> d in u - scope;
    assert d in t ==> (t - scope)[d] == t[d];
    assert d in u ==> (u - scope)[d] == u[d];
  }

  function DefaultIn(t: Table, f: Family): Option<Hop> { if Default(f) in t then Some(t[Default(f)]) else None }

  class RoutingConfig {
    const settings: Settings
    var original: Option<Hop>
    var originalV6: Option<Hop>
    var deletedRoutes: seq<(Net, Hop)>

    constructor (settings: Settings, original: Option<Hop>, originalV6: Option<Hop>)
      ensures this.settings == settings && this.original == original && this.originalV6 == originalV6 && deletedRoutes == []
    {
      this.settings, this.original, this.originalV6, deletedRoutes := settings, original, originalV6, [];
    }

    /**
     `setup_full_tunnel`. Whatever commands fail, it touches only what a tear-down removes and the IPv4
     default, and captures only the defaults it found. If none fails, it succeeds exactly when there is
     an original hop, and leaves the established table.
    */
    method SetUpFullTunnel(route: RouteCommand) returns (ok: bool)
      modifies this, route
      ensures route.table - SetUpScope(settings) == old(route.table) - SetUpScope(settings)
      ensures original == old(original) || (old(original).None? && original == old(DefaultIn(route.table, Inet)))
      ensures originalV6 == old(originalV6) || (old(originalV6).None? && originalV6 == old(DefaultIn(route.table, Inet6)))
      ensures ok ==> original.Some?
      ensures original.None? ==> route.table == old(route.table)
      ensures old(route.Reliable()) ==> route.Reliable()
      ensures old(route.Reliable()) ==>
        original == (if old(original).Some? then old(original) else old(DefaultIn(route.table, Inet)))
      ensures old(route.Reliable()) && ok && Tunnels6(settings) && old(originalV6).None? ==>
        originalV6 == old(DefaultIn(route.table, Inet6))
      ensures old(route.Reliable()) ==> (ok <==> original.Some?)
      ensures old(route.Reliable()) ==>
        route.table == if ok then Established(settings, original.value, originalV6, old(route.table)) else old(route.table)
      ensures old(route.Reliable()) ==>
        deletedRoutes == old(deletedRoutes) + if ok && settings.killSwitch then [(Default(Inet), original.value)] else []
    {
      if original.None? {
        original := route.Get(Default(Inet));
        if original.None? { return false; }
      }
      ok := SetUpBoth(route, original.value);
    }

    method SetUpBoth(route: RouteCommand, hop: Hop) returns (ok: bool)
      modifies this`deletedRoutes, this`originalV6, route
      ensures route.table - SetUpScope(settings) == old(route.table) - SetUpScope(settings)
      ensures originalV6 == old(originalV6) || (old(originalV6).None? && originalV6 == old(DefaultIn(route.table, Inet6)))
      ensures old(route.Reliable()) ==> ok && route.Reliable()
      ensures old(route.Reliable()) && Tunnels6(settings) && old(originalV6).None? ==> originalV6 == old(DefaultIn(route.table, Inet6))
      ensures old(route.Reliable()) ==> route.table == Established(settings, hop, originalV6, old(route.table))
      ensures old(route.Reliable()) ==>
        deletedRoutes == old(deletedRoutes) + if settings.killSwitch then [(Default(Inet), hop)] else []
    {
      ok := SetUpInet(route, hop);
      if ok && Tunnels6(settings) {
        ok := SetUpInet6(route);
      }
    }

    method SetUpInet(route: RouteCommand, hop: Hop) returns (ok: bool)
      modifies this`deletedRoutes, route
      ensures route.table - SetUpScope(settings) == old(route.table) - SetUpScope(settings)
      ensures DefaultIn(route.table, Inet6) == old(DefaultIn(route.table, Inet6))
      ensures old(route.Reliable()) ==> ok && route.Reliable()
      ensures old(route.Reliable()) ==> route.table == Routes4(settings, hop) + (old(route.table) - {Default(Inet)})
      ensures old(route.Reliable()) ==>
        deletedRoutes == old(deletedRoutes) + if settings.killSwitch then [(Default(Inet), hop)] else []
    {
      ghost var scope := Scope4(settings);
      Scope4Facts(settings);
      var deleted;
      ok, deleted := AddAround(
        route, Default(Inet), Server(settings), Lan(Inet, settings.killSwitch && settings.allowLan), hop,
        LowHalf(Inet), HighHalf(Inet), Hop(settings.gateway, settings.interface), scope);
      if settings.killSwitch && deleted { deletedRoutes := deletedRoutes + [(Default(Inet), hop)]; }
      Widen(old(route.table), route.table, scope, SetUpScope(settings));
      SameOutside(old(route.table), route.table, scope, Default(Inet6));
    }

    method SetUpInet6(route: RouteCommand) returns (ok: bool)
      requires Tunnels6(settings)
      modifies this`originalV6, route
      ensures route.table - SetUpScope(settings) == old(route.table) - SetUpScope(settings)
      ensures originalV6 == old(originalV6) || (old(originalV6).None? && originalV6 == old(DefaultIn(route.table, Inet6)))
      ensures old(route.Reliable()) ==> ok && route.Reliable()
      ensures old(route.Reliable()) && old(originalV6).None? ==> originalV6 == old(DefaultIn(route.table, Inet6))
      ensures old(route.Reliable()) ==> route.table == Routes6(settings, originalV6) + old(route.table)
    {
      if originalV6.None? { originalV6 := route.Get(Default(Inet6)); }
      Scope6Facts(settings);
      ok := AddInet6(
        route, Lan(Inet6, settings.killSwitch && settings.allowLan), originalV6,
        LowHalf(Inet6), HighHalf(Inet6), Hop(settings.gatewayV6.value, settings.interface), SetUpScope(settings));
    }

    /** `teardown_routing_force_restore`. */
    method TearDownForceRestore(route: RouteCommand) returns (ok: bool)
      modifies route
      ensures forall d :: !TunnelRoute(settings, d) && !(settings.allowLan && LocalRoute(settings, d)) && !DefaultRoute(settings, d) ==>
        SameEntry(old(route.table), route.table, d)
      ensures old(route.Reliable()) ==> ok
      ensures old(route.Reliable()) ==> route.table == WithDefaults(old(route.table) - Removed(settings, settings.allowLan))
    {
      RemoveRoutes(route, settings.allowLan);
      ok := RestoreDefaults(route, settings.allowLan);
      LeftAlone(settings, settings.allowLan, old(route.table), route.table);
    }

    /** `teardown_routing`: with the kill switch, the defaults are not restored. */
    method TearDown(route: RouteCommand) returns (ok: bool)
      modifies route
      ensures var lan := settings.killSwitch && settings.allowLan;
        forall d :: !TunnelRoute(settings, d) && !(lan && LocalRoute(settings, d)) && !DefaultRoute(settings, d) ==>
          SameEntry(old(route.table), route.table, d)
      ensures old(route.Reliable()) ==> ok
      ensures old(route.Reliable()) && settings.killSwitch ==>
        route.table == old(route.table) - Removed(settings, settings.allowLan)
      ensures old(route.Reliable()) && !settings.killSwitch ==>
        route.table == WithDefaults(old(route.table) - Removed(settings, false))
    {
      var lan := settings.killSwitch && settings.allowLan;
      RemoveRoutes(route, lan);
      ok := true;
      if !settings.killSwitch { ok := RestoreDefaults(route, lan); }
      LeftAlone(settings, lan, old(route.table), route.table);
    }

    function WithDefaults(t: Table): Table reads this { WithBoth(t, original, if settings.ipv6Enabled then originalV6 else None) }

    method RemoveRoutes(route: RouteCommand, lan: bool)
      modifies route
      ensures route.table - TearDownScope(settings, lan) == old(route.table) - TearDownScope(settings, lan)
      ensures old(route.Reliable()) ==> route.Reliable()
      ensures old(route.Reliable()) ==> route.table == old(route.table) - Removed(settings, lan)
    {
      ghost var scope := TearDownScope(settings, lan);
      RemovedFacts(settings, lan, route.table);
      DeleteAround(route, LowHalf(Inet), HighHalf(Inet), [Server(settings)], Lan(Inet, lan), scope);
      if settings.ipv6Enabled {
        DeleteAround(route, LowHalf(Inet6), HighHalf(Inet6), [], Lan(Inet6, lan), scope);
      }
    }

    /** A failure to restore the IPv6 default is not an error. */
    method RestoreDefaults(route: RouteCommand, ghost lan: bool) returns (ok: bool)
      modifies route
      ensures route.table - TearDownScope(settings, lan) == old(route.table) - TearDownScope(settings, lan)
      ensures old(route.Reliable()) ==> ok && route.table == WithDefaults(old(route.table))
    {
      ghost var scope := TearDownScope(settings, lan);
      ok := true;
      if original.Some? {
        ok := Replace(route, Default(Inet), original.value, scope);
        if !ok { return; }
      }
      if settings.ipv6Enabled && originalV6.Some? {
        var _ := Replace(route, Default(Inet6), originalV6.value, scope);
      }
    }
  }

  function Scope4(s: Settings): set<Net> { Removed4(s, s.killSwitch && s.allowLan) + {Default(Inet)} }

  lemma Scope4Facts(s: Settings)
    ensures Default(Inet6) !in Scope4(s) && Scope4(s) <= SetUpScope(s)
    ensures {Default(Inet), Server(s), LowHalf(Inet), HighHalf(Inet)} + Members(Lan(Inet, s.killSwitch && s.allowLan)) <= Scope4(s)
  {
  }

  lemma Scope6Facts(s: Settings)
    requires s.ipv6Enabled
    ensures {LowHalf(Inet6), HighHalf(Inet6)} + Members(Lan(Inet6, s.killSwitch && s.allowLan)) <= SetUpScope(s)
  {
  }

  lemma {:induction false} RemovedFacts(s: Settings, lan: bool, t: Table)
    ensures {LowHalf(Inet), HighHalf(Inet)} + Members([Server(s)]) + Members(Lan(Inet, lan)) == Removed4(s, lan)
    ensures {LowHalf(Inet6), HighHalf(Inet6)} + Members([]) + Members(Lan(Inet6, lan)) == Removed6(lan)
    ensures Removed(s, lan) <= TearDownScope(s, lan)
    ensures t - Removed4(s, lan) - Removed6(lan) == t - (Removed4(s, lan) + Removed6(lan))
  {
    assert Members([Server(s)]) == {Server(s)};
    assert Members([]) == {};
  }

  // ---- Coming back ----

  /**
   Set-up, of which any commands may fail, and then a forced tear-down. If no command of
   the tear-down fails, the table is the first one without the destinations the client manages,
   and with the captured defaults.
  */
  method ConnectThenDisconnect(config: RoutingConfig, route: RouteCommand) returns (ghost reliable: bool)
    modifies config, route
    ensures reliable ==> route.table == config.WithDefaults(old(route.table) - Removed(config.settings, config.settings.allowLan))
    ensures config.original == old(config.original) || config.original == DefaultIn(old(route.table), Inet)
    ensures config.originalV6 == old(config.originalV6) || config.originalV6 == DefaultIn(old(route.table), Inet6)
  {
    var _ := config.SetUpFullTunnel(route);
    reliable := route.Reliable();
    ghost var s := config.settings;
    SetUpForgotten(old(route.table), route.table, s, config.original, if s.ipv6Enabled then config.originalV6 else None);
    var _ := config.TearDownForceRestore(route);
  }

  lemma {:induction false} SetUpForgotten(t: Table, u: Table, s: Settings, hop: Option<Hop>, hopV6: Option<Hop>)
    requires t - SetUpScope(s) == u - SetUpScope(s)
    requires hop.None? ==> t == u
    ensures WithBoth(u - Removed(s, s.allowLan), hop, hopV6) == WithBoth(t - Removed(s, s.allowLan), hop, hopV6)
  {
    if hop.Some? {
      RemovedGrows(s);
      Widen(t, u, SetUpScope(s), Removed(s, s.allowLan) + {Default(Inet)});
      ReplacedForgotten(t, u, Removed(s, s.allowLan), Default(Inet), hop.value);
    }
  }

  lemma {:induction false} RemovedGrows(s: Settings)
    ensures SetUpScope(s) <= Removed(s, s.allowLan) + {Default(Inet)}
  {
    forall d | d in SetUpScope(s)
      ensures d in Removed(s, s.allowLan) + {Default(Inet)}
    {
      RemovedExactly(s, s.allowLan, d);
    }
  }

  lemma {:induction false} ReplacedForgotten(t: Table, u: Table, removed: set<Net>, d: Net, hop: Hop)
    requires t - (removed + {d}) == u - (removed + {d})
    ensures (t - removed)[d := hop] == (u - removed)[d := hop]
  {
    assert (t - removed)[d := hop] == (t - (removed + {d}))[d := hop];
    assert (u - removed)[d := hop] == (u - (removed + {d}))[d := hop];
  }

  /**
   A session gives the table back as it was if and only if none of the managed destinations was in it
   and each default that is restored is the one that was there.
  */
  lemma {:induction false} GivesBackExactly(s: Settings, t: Table, hop: Option<Hop>, hopV6: Option<Hop>)
    ensures WithBoth(t - Removed(s, s.allowLan), hop, hopV6) == t <==>
      && Removed(s, s.allowLan) !! t.Keys
      && (hop.Some? ==> DefaultIn(t, Inet) == hop)
      && (hopV6.Some? ==> DefaultIn(t, Inet6) == hopV6)
  {
    NoDefaultRemoved(s, s.allowLan, Default(Inet));
    NoDefaultRemoved(s, s.allowLan, Default(Inet6));
    RestoredExactly(t, Removed(s, s.allowLan), Default(Inet), hop, Default(Inet6), hopV6);
  }

  /** A route to one of the local networks that was there before survives a session if and only if the local network is not allowed. */
  lemma {:induction false} LanRouteLost(s: Settings, t: Table, hop: Option<Hop>, hopV6: Option<Hop>, d: Net)
    requires LocalRoute(s, d) && d in t
    ensures d in WithBoth(t - Removed(s, s.allowLan), hop, hopV6) <==> !s.allowLan
  {
    TornDownExactly(s, s.allowLan, t, hop, hopV6, d);
  }

  lemma {:induction false} NoDefaultRemoved(s: Settings, lan: bool, d: Net)
    requires d.len == 0
    ensures d !in Removed(s, lan)
  {
    LanIsSpecific(Inet, lan);
    LanIsSpecific(Inet6, lan);
    assert d !in Lan(Inet, lan) && d !in Lan(Inet6, lan);
  }

  lemma {:induction false} RestoredExactly(t: Table, removed: set<Net>, d: Net, hop: Option<Hop>, e: Net, hopE: Option<Hop>)
    requires d !in removed && e !in removed && d != e
    ensures Restored(Restored(t - removed, d, hop), e, hopE) == t <==>
      && removed !! t.Keys
      && (hop.Some? ==> d in t && t[d] == hop.value)
      && (hopE.Some? ==> e in t && t[e] == hopE.value)
  {
    var u := Restored(Restored(t - removed, d, hop), e, hopE);
    assert removed !! u.Keys;
    assert hop.Some? ==> d in u && u[d] == hop.value;
    assert hopE.Some? ==> e in u && u[e] == hopE.value;
    assert forall x :: x !in removed && x != d && x != e ==> (x in u <==> x in t);
  }

  // ---- Where packets go ----

  /** `d` is a longest prefix in `t` for address `a`. */
  ghost predicate Best(t: Table, f: Family, a: nat, d: Net) {
    d in t && d.Contains(f, a) && forall e :: e in t && e.Contains(f, a) ==> e.len <= d.len
  }

  lemma {:induction false} BestExists(t: Table, f: Family, a: nat, d: Net)
    requires d in t && d.Contains(f, a)
    ensures exists e :: Best(t, f, a, e)
    decreases Width(f) - d.len
  {
    if e :| e in t && e.Contains(f, a) && e.len > d.len {
      BestExists(t, f, a, e);
    } else {
      assert Best(t, f, a, d);
    }
  }

  /** `a` is routed, and every longest prefix leads to `hop`. */
  ghost predicate Sends(t: Table, f: Family, a: nat, hop: Hop) {
    (exists d :: Best(t, f, a, d)) && forall d :: Best(t, f, a, d) ==> t[d] == hop
  }

  /** Some route of `t` other than a default covers `a`. */
  ghost predicate Covered(t: Table, f: Family, a: nat) { exists d :: d in t && d.len > 0 && d.Contains(f, a) }

  lemma {:induction false} HalvesCover(f: Family, a: nat)
    requires a < Pow2(Width(f))
    ensures LowHalf(f).Contains(f, a) || HighHalf(f).Contains(f, a)
  {
    var half := Pow2(Width(f) - 1);
    assert Pow2(Width(f)) == 2 * half;
    if a < half {
      RemainderUnique(a, half, 0, a);
    } else {
      RemainderUnique(a, half, 1, a - half);
    }
    RemainderUnique(half, half, 1, 0);
    RemainderUnique(0, half, 0, 0);
  }

  /** In a table of defaults, the two halves and narrower routes through `original`, a longest prefix is narrow if it can be. */
  lemma {:induction false} Winner(t: Table, f: Family, a: nat, narrow: set<Net>, original: Hop, tunnel: Hop)
    requires a < Pow2(Width(f))
    requires LowHalf(f) in t && HighHalf(f) in t && narrow <= t.Keys
    requires forall d :: d in narrow ==> d.len > 1
    requires forall d :: d in t && d.len > 0 && d.Contains(f, a) ==>
      if d in narrow then t[d] == original else d.len == 1 && t[d] == tunnel
    ensures Sends(t, f, a, if exists d :: d in narrow && d.Contains(f, a) then original else tunnel)
  {
    HalvesCover(f, a);
    BestExists(t, f, a, if LowHalf(f).Contains(f, a) then LowHalf(f) else HighHalf(f));
  }

  lemma AroundEntries(server: Net, lan: seq<Net>, original: Hop, low: Net, high: Net, tunnel: Hop, t: Table, d: Net)
    ensures var u := Around([server], lan, original, low, high, tunnel) + t;
      && (d in u <==> d in t || d in [server] + lan + [low, high])
      && (d in u ==> u[d] == if d in t then t[d] else if d in [server] + lan then original else tunnel)
  {
  }

  lemma Around6Entries(lan: seq<Net>, original: Option<Hop>, low: Net, high: Net, tunnel: Hop, t: Table, d: Net)
    requires low !in lan && high !in lan
    ensures var u := Around6(lan, original, low, high, tunnel) + t;
      && (d in u <==> d in t || d in [low, high] || (original.Some? && d in lan))
      && (d in u ==> u[d] == if d in t then t[d] else if d in [low, high] then tunnel else original.value)
  {
  }

  predicate ToLan(s: Settings, f: Family, a: nat) { s.killSwitch && s.allowLan && InAny(Lan(f, true), f, a) }

  /**
   Once set up, an IPv4 address that no earlier route but a default covers goes into the tunnel, unless it is
   the server's, or local and the kill switch allows the local network: those go where the default led.
  */
  lemma {:induction false} TunnelTakesInet(s: Settings, original: Hop, originalV6: Option<Hop>, t: Table, a: nat)
    requires a < Pow2(32) && !Covered(t, Inet, a)
    ensures Sends(Established(s, original, originalV6, t), Inet, a,
      if a == s.server || ToLan(s, Inet, a) then original else Hop(s.gateway, s.interface))
  {
    var lan := Lan(Inet, s.killSwitch && s.allowLan);
    var u := Established(s, original, originalV6, t);
    forall d: Net | d.family == Inet
      ensures Entry(u, t - {Default(Inet)}, [Server(s)] + lan, original, Hop(s.gateway, s.interface), d)
    {
      InetEntries(s, original, originalV6, t, d);
    }
    NarrowRoutes(s);
    TunnelWins(u, t - {Default(Inet)}, Inet, a, [Server(s)] + lan, original, Hop(s.gateway, s.interface));
    ServerOrLan(s, lan, a);
  }

  lemma {:induction false} NarrowRoutes(s: Settings)
    ensures forall d :: d in [Server(s)] + Lan(Inet, s.killSwitch && s.allowLan) ==> d.family == Inet && d.len > 1
  {
    LanIsSpecific(Inet, s.killSwitch && s.allowLan);
  }

  /** What is in the table `u` for `d`: what was kept, the narrow routes, and the two halves. */
  ghost predicate Entry(u: Table, kept: Table, nets: seq<Net>, original: Hop, tunnel: Hop, d: Net) {
    && (d in u <==> d in kept || d in nets || d in [LowHalf(d.family), HighHalf(d.family)])
    && (d in u ==> u[d] == if d in kept then kept[d] else if d in nets then original else tunnel)
  }

  lemma {:induction false} TunnelWins(u: Table, kept: Table, f: Family, a: nat, nets: seq<Net>, original: Hop, tunnel: Hop)
    requires a < Pow2(Width(f)) && !Covered(kept, f, a)
    requires forall d :: d in nets ==> d.family == f && d.len > 1
    requires forall d: Net :: d.family == f ==> Entry(u, kept, nets, original, tunnel, d)
    ensures Sends(u, f, a, if InAny(nets, f, a) then original else tunnel)
  {
    assert Entry(u, kept, nets, original, tunnel, LowHalf(f)) && Entry(u, kept, nets, original, tunnel, HighHalf(f));
    forall d | d in nets
      ensures d in u
    {
      assert Entry(u, kept, nets, original, tunnel, d);
    }
    forall d | d in u && d.len > 0 && d.Contains(f, a)
      ensures if d in Members(nets) then u[d] == original else d.len == 1 && u[d] == tunnel
    {
      assert Entry(u, kept, nets, original, tunnel, d);
      assert d !in kept;
    }
    Winner(u, f, a, Members(nets), original, tunnel);
    NarrowContains(nets, f, a);
  }

  lemma {:induction false} NarrowContains(nets: seq<Net>, f: Family, a: nat)
    ensures InAny(nets, f, a) <==> exists d :: d in Members(nets) && d.Contains(f, a)
  {
    if d :| d in Members(nets) && d.Contains(f, a) {
      var i :| 0 <= i < |nets| && nets[i] == d;
    }
    if i :| 0 <= i < |nets| && nets[i].Contains(f, a) { assert nets[i] in Members(nets); }
  }

  lemma {:induction false} ServerOrLan(s: Settings, lan: seq<Net>, a: nat)
    ensures InAny([Server(s)] + lan, Inet, a) <==> a == s.server || InAny(lan, Inet, a)
  {
    HostContainsItself(Inet, s.server, a);
    var nets := [Server(s)] + lan;
    assert nets[0] == Server(s);
    assert forall i :: 0 <= i < |lan| ==> nets[i + 1] == lan[i];
  }

  lemma {:induction false} InetEntries(s: Settings, original: Hop, originalV6: Option<Hop>, t: Table, d: Net)
    requires d.family == Inet
    ensures Entry(Established(s, original, originalV6, t), t - {Default(Inet)}, [Server(s)] + Lan(Inet, s.killSwitch && s.allowLan),
      original, Hop(s.gateway, s.interface), d)
  {
    var lan := Lan(Inet, s.killSwitch && s.allowLan);
    AroundEntries(Server(s), lan, original, LowHalf(Inet), HighHalf(Inet), Hop(s.gateway, s.interface), t - {Default(Inet)}, d);
    if Tunnels6(s) {
      var lan6 := Lan(Inet6, s.killSwitch && s.allowLan);
      LanIsSpecific(Inet6, s.killSwitch && s.allowLan);
      Around6Entries(lan6, originalV6, LowHalf(Inet6), HighHalf(Inet6), Hop(s.gatewayV6.value, s.interface),
                     Routes4(s, original) + (t - {Default(Inet)}), d);
    }
  }

  lemma {:induction false} Inet6Entries(s: Settings, original: Hop, originalV6: Option<Hop>, t: Table, d: Net)
    requires d.family == Inet6
    ensures var u := Established(s, original, originalV6, t);
      var lan := Lan(Inet6, s.killSwitch && s.allowLan);
      && (d in u <==> d in t || (Tunnels6(s) && (d in [LowHalf(Inet6), HighHalf(Inet6)] || (originalV6.Some? && d in lan))))
      && (d in u ==> u[d] == if d in t then t[d]
                             else if d in [LowHalf(Inet6), HighHalf(Inet6)] then Hop(s.gatewayV6.value, s.interface)
                             else originalV6.value)
  {
    var lan := Lan(Inet, s.killSwitch && s.allowLan);
    LanIsSpecific(Inet, s.killSwitch && s.allowLan);
    AroundEntries(Server(s), lan, original, LowHalf(Inet), HighHalf(Inet), Hop(s.gateway, s.interface), t - {Default(Inet)}, d);
    if Tunnels6(s) {
      LanIsSpecific(Inet6, s.killSwitch && s.allowLan);
      Around6Entries(Lan(Inet6, s.killSwitch && s.allowLan), originalV6, LowHalf(Inet6), HighHalf(Inet6),
                     Hop(s.gatewayV6.value, s.interface), Routes4(s, original) + (t - {Default(Inet)}), d);
    }
  }

  /** The same for IPv6, where local addresses leave the tunnel only if there was an IPv6 default. */
  lemma {:induction false} TunnelTakesInet6(s: Settings, original: Hop, originalV6: Option<Hop>, t: Table, a: nat)
    requires a < Pow2(128) && !Covered(t, Inet6, a) && Tunnels6(s)
    ensures Sends(Established(s, original, originalV6, t), Inet6, a,
      if originalV6.Some? && ToLan(s, Inet6, a) then originalV6.value else Hop(s.gatewayV6.value, s.interface))
  {
    var lan := if originalV6.Some? then Lan(Inet6, s.killSwitch && s.allowLan) else [];
    var u := Established(s, original, originalV6, t);
    var hop := if originalV6.Some? then originalV6.value else original;
    LanIsSpecific(Inet6, s.killSwitch && s.allowLan);
    forall d: Net | d.family == Inet6
      ensures Entry(u, t, lan, hop, Hop(s.gatewayV6.value, s.interface), d)
    {
      Inet6Entry(s, original, originalV6, t, lan, hop, d);
    }
    TunnelWins(u, t, Inet6, a, lan, hop, Hop(s.gatewayV6.value, s.interface));
  }

  lemma {:induction false} Inet6Entry(s: Settings, original: Hop, originalV6: Option<Hop>, t: Table, lan: seq<Net>, hop: Hop, d: Net)
    requires d.family == Inet6 && Tunnels6(s) && (originalV6.Some? ==> hop == originalV6.value)
    requires lan == if originalV6.Some? then Lan(Inet6, s.killSwitch && s.allowLan) else []
    ensures Entry(Established(s, original, originalV6, t), t, lan, hop, Hop(s.gatewayV6.value, s.interface), d)
  {
    LanIsSpecific(Inet6, s.killSwitch && s.allowLan);
    Inet6Entries(s, original, originalV6, t, d);
  }

  /**
   The table that set-up leaves, destination by destination: what was there, except the IPv4 default, and for the
   rest the tunnel routes, and the routes around it for the server and the allowed local networks.
  */
  lemma {:induction false} EstablishedExactly(s: Settings, original: Hop, originalV6: Option<Hop>, t: Table, d: Net)
    requires d.family == Inet
    ensures var u := Established(s, original, originalV6, t);
      if d in t && d != Net(Inet, 0, 0) then d in u && u[d] == t[d]
      else if d == Net(Inet, 0, 1) || d == Net(Inet, 0x8000_0000, 1) then d in u && u[d] == Hop(s.gateway, s.interface)
      else if d == Net(Inet, s.server, 32) || (s.killSwitch && s.allowLan && LocalInet(d)) then d in u && u[d] == original
      else d !in u
  {
    Pow2Values();
    LanMembers(s.killSwitch && s.allowLan, d);
    InetEntries(s, original, originalV6, t, d);
    NarrowRoutes(s);
  }

  /** The same for IPv6, where the default stays and there is no server to go around. */
  lemma {:induction false} EstablishedExactly6(s: Settings, original: Hop, originalV6: Option<Hop>, t: Table, d: Net)
    requires d.family == Inet6
    ensures var u := Established(s, original, originalV6, t);
      if d in t then d in u && u[d] == t[d]
      else if !s.ipv6Enabled || s.gatewayV6.None? then d !in u
      else if d == Net(Inet6, 0, 1) || d == Net(Inet6, 0x8000_0000_0000_0000_0000_0000_0000_0000, 1) then
        d in u && u[d] == Hop(s.gatewayV6.value, s.interface)
      else if s.killSwitch && s.allowLan && LocalInet6(d) && originalV6.Some? then d in u && u[d] == originalV6.value
      else d !in u
  {
    Pow2Values();
    LanMembers(s.killSwitch && s.allowLan, d);
    Inet6Entries(s, original, originalV6, t, d);
  }

  /**
   After a session with the kill switch, no IPv4 address is routed that only the default covered.
   The IPv6 default is as it was: the kill switch never takes it away.
  */
  lemma {:induction false} KillSwitchBlocksInet(s: Settings, original: Hop, originalV6: Option<Hop>, t: Table, a: nat)
    requires forall d :: d in t && d.Contains(Inet, a) ==> d == Default(Inet)
    requires s.killSwitch
    ensures var u := Established(s, original, originalV6, t) - Removed(s, s.allowLan);
      && (forall d :: d in u ==> !d.Contains(Inet, a))
      && DefaultIn(u, Inet6) == DefaultIn(t, Inet6)
  {
    var e := Established(s, original, originalV6, t);
    var u := e - Removed(s, s.allowLan);
    forall d | d in u
      ensures !d.Contains(Inet, a)
    {
      if d.family == Inet { InetEntries(s, original, originalV6, t, d); }
    }
    Inet6Entries(s, original, originalV6, t, Default(Inet6));
    NoDefaultRemoved(s, s.allowLan, Default(Inet6));
    LanIsSpecific(Inet6, s.killSwitch && s.allowLan);
  }
}
