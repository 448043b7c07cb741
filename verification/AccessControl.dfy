/** The access-control decisions over address and host rules. */
module AccessControl {
  import opened Bytes
  import opened Net
  import opened Text
  import opened HostRules

  datatype Ipv4Net = Ipv4Net(base: u32, prefix: nat)
  datatype Ipv6Net = Ipv6Net(base: u128, prefix: nat)

  /** `a >> n` */
  function ShiftRight(a: nat, n: nat): nat {
    if n == 0 then a else ShiftRight(a / 2, n - 1)
  }

  /** The addresses of a network share its first `prefix` bits. */
  predicate InPrefix(base: nat, prefix: nat, width: nat, a: nat) {
    var low := if prefix <= width then width - prefix else 0;
    ShiftRight(a, low) == ShiftRight(base, low)
  }

  lemma {:induction false} ShiftComposes(a: nat, m: nat, n: nat)
    ensures ShiftRight(a, m + n) == ShiftRight(ShiftRight(a, m), n)
  {
    if m > 0 {
      ShiftComposes(a / 2, m - 1, n);
    }
  }

  lemma {:induction false} ShiftOut(a: nat, n: nat)
    requires a < Pow2(n)
    ensures ShiftRight(a, n) == 0
  {
    if n > 0 {
      ShiftOut(a / 2, n - 1);
    }
  }

  /** A full prefix is a single address, an empty one holds them all, and a shorter prefix of a
      network holds all its addresses. */
  lemma PrefixesNest(base: nat, width: nat, p: nat, q: nat, a: nat)
    requires p <= q <= width && base < Pow2(width) && a < Pow2(width)
    ensures InPrefix(base, width, width, a) <==> a == base
    ensures InPrefix(base, 0, width, a)
    ensures InPrefix(base, q, width, a) ==> InPrefix(base, p, width, a)
  {
    ShiftOut(a, width);
    ShiftOut(base, width);
    ShiftComposes(a, width - q, q - p);
    ShiftComposes(base, width - q, q - p);
  }

  lemma {:induction false} ShiftDivides(a: nat, n: nat)
    ensures ShiftRight(a, n) == a / Pow2(n)
  {
    if n > 0 {
      ShiftDivides(a / 2, n - 1);
      HalvesDivide(a, Pow2(n - 1));
    }
  }

  lemma QuotientUnique(x: nat, q: nat, m: nat, r: nat)
    requires x == q * m + r && r < m
    ensures x / m == q
  {
    var d := x / m - q;
    assert d * m == r - x % m;
    assert d >= 1 ==> d * m >= m;
    assert -d >= 1 ==> -d * m >= m;
  }

  lemma HalvesDivide(a: nat, m: nat)
    requires m > 0
    ensures a / 2 / m == a / (2 * m)
  {
    var q, r := a / 2 / m, a / 2 % m;
    assert q * (2 * m) == 2 * (q * m);
    QuotientUnique(a, q, 2 * m, 2 * r + a % 2);
  }

  /** An address is in a network exactly when it lies in the same block of the network's size. */
  lemma InPrefixIffSameBlock(base: nat, prefix: nat, width: nat, a: nat)
    requires prefix <= width
    ensures InPrefix(base, prefix, width, a) <==> a / Pow2(width - prefix) == base / Pow2(width - prefix)
  {
    ShiftDivides(a, width - prefix);
    ShiftDivides(base, width - prefix);
  }

  predicate V4Contains(nets: set<Ipv4Net>, a: u32) {
    exists n :: n in nets && InPrefix(n.base, n.prefix, 32, a)
  }

  predicate V6Contains(nets: set<Ipv6Net>, a: u128) {
    exists n :: n in nets && InPrefix(n.base, n.prefix, 128, a)
  }

  datatype Rules = Rules(ipv4: set<Ipv4Net>, ipv6: set<Ipv6Net>, hosts: HostSpec)

  predicate IpMatched(r: Rules, ip: IpAddr) {
    match ip
    case V4(a) => V4Contains(r.ipv4, a) || V6Contains(r.ipv6, ToIpv6Mapped(a))
    case V6(a) =>
      || V6Contains(r.ipv6, a)
      || (match ToIpv4Mapped(a)
          case Some(b) => V4Contains(r.ipv4, b)
          case None => false)
  }

  predicate IpEmpty(r: Rules) {
    r.ipv4 == {} && r.ipv6 == {}
  }

  /** An IPv4 address and its IPv4-mapped form match the same rules. */
  lemma MappedFormMatchesAlike(r: Rules, a: u32)
    ensures IpMatched(r, V4(a)) == IpMatched(r, V6(ToIpv6Mapped(a)))
  {
  }

  datatype Mode = BlackList | WhiteList

  datatype Acl = Acl(
    outboundBlock: Rules, outboundAllow: Rules, blackList: Rules, whiteList: Rules,
    mode: Mode, outboundMode: Mode
  )

  datatype Address = SocketAddress(sa: SocketAddr) | DomainName(host: string, port: u16)

  /** The libraries a decision calls: regular expressions, conversion of a host name to ASCII,
      and name resolution, which may fail. */
  datatype Env = Env(rx: Engine, ascii: string -> string, dns: (string, u16) -> Option<seq<SocketAddr>>)

  predicate HostIn(env: Env, r: Rules, host: string) {
    HostMatched(env.rx, r.hosts, env.ascii(host))
  }

  predicate IpProxied(acl: Acl, ip: IpAddr) {
    if IpMatched(acl.blackList, ip) then false
    else if IpMatched(acl.whiteList, ip) then true
    else acl.mode.BlackList?
  }

  predicate OutboundIpBlocked(acl: Acl, ip: IpAddr) {
    if IpMatched(acl.outboundBlock, ip) then true
    else if IpMatched(acl.outboundAllow, ip) then false
    else acl.outboundMode.WhiteList?
  }

  /** Some resolved address of the host matches. A host that does not resolve has none. */
  predicate SomeResolvedMatched(env: Env, r: Rules, host: string, port: u16) {
    match env.dns(host, port)
    case None => false
    case Some(addrs) => exists k :: 0 <= k < |addrs| && IpMatched(r, addrs[k].ip)
  }

  /** What `check_target_bypassed` decides. */
  predicate Bypassed(env: Env, acl: Acl, addr: Address) {
    match addr
    case SocketAddress(sa) => !IpProxied(acl, sa.ip)
    case DomainName(host, port) =>
      if HostIn(env, acl.whiteList, host) then false
      else if HostIn(env, acl.blackList, host) then true
      else if acl.mode.BlackList? then SomeResolvedMatched(env, acl.blackList, host, port)
      else !SomeResolvedMatched(env, acl.whiteList, host, port)
  }

  /** What `check_outbound_blocked` decides. */
  predicate OutboundBlocked(env: Env, acl: Acl, addr: Address) {
    match addr
    case SocketAddress(sa) => OutboundIpBlocked(acl, sa.ip)
    case DomainName(host, port) =>
      if HostIn(env, acl.outboundBlock, host) then true
      else if HostIn(env, acl.outboundAllow, host) then false
      else if acl.outboundMode.BlackList? then SomeResolvedMatched(env, acl.outboundBlock, host, port)
      else !SomeResolvedMatched(env, acl.outboundAllow, host, port)
  }

  // ----- The decisions as the program computes them

  method AnyMatched(env: Env, r: Rules, host: string, port: u16) returns (found: bool)
    ensures found == SomeResolvedMatched(env, r, host, port)
  {
    match env.dns(host, port) {
      case None => return false;
      case Some(addrs) =>
        for k := 0 to |addrs|
          invariant forall j :: 0 <= j < k ==> !IpMatched(r, addrs[j].ip)
        {
          if IpMatched(r, addrs[k].ip) {
            return true;
          }
        }
        return false;
    }
  }

  method CheckTargetBypassed(env: Env, acl: Acl, addr: Address) returns (bypass: bool)
    ensures bypass == Bypassed(env, acl, addr)
  {
    match addr {
      case SocketAddress(sa) => return !IpProxied(acl, sa.ip);
      case DomainName(host, port) =>
        var ascii := env.ascii(host);
        if HostMatched(env.rx, acl.whiteList.hosts, ascii) {
          return false;
        }
        if HostMatched(env.rx, acl.blackList.hosts, ascii) {
          return true;
        }
        var proxiedByDefault := acl.mode.BlackList?;
        var checkList := if acl.mode.BlackList? then acl.blackList else acl.whiteList;
        var bypassIfMatched := acl.mode.BlackList?;
        NothingResolvedMatched(env, checkList, host, port);
        if IpEmpty(checkList) {
          return !proxiedByDefault;
        }
        var found := AnyMatched(env, checkList, host, port);
        return if found then bypassIfMatched else !proxiedByDefault;
    }
  }

  method CheckOutboundBlocked(env: Env, acl: Acl, addr: Address) returns (blocked: bool)
    ensures blocked == OutboundBlocked(env, acl, addr)
  {
    match addr {
      case SocketAddress(sa) => return OutboundIpBlocked(acl, sa.ip);
      case DomainName(host, port) =>
        var ascii := env.ascii(host);
        if HostMatched(env.rx, acl.outboundBlock.hosts, ascii) {
          return true;
        }
        if HostMatched(env.rx, acl.outboundAllow.hosts, ascii) {
          return false;
        }
        var blockedByDefault := acl.outboundMode.WhiteList?;
        var checkRule := if acl.outboundMode.BlackList? then acl.outboundBlock else acl.outboundAllow;
        var blockIfMatched := acl.outboundMode.BlackList?;
        NothingResolvedMatched(env, checkRule, host, port);
        if IpEmpty(checkRule) {
          return blockedByDefault;
        }
        var found := AnyMatched(env, checkRule, host, port);
        return if found then blockIfMatched else blockedByDefault;
    }
  }

  // ----- What one more rule changes

  function WithHostRule(r: Rules, rule: string): Rules {
    r.(hosts := Added(r.hosts, rule))
  }

  /** Whether a rule, as it is read, matches the host of a request. */
  predicate RuleHits(env: Env, rule: string, host: string) {
    RuleMatches(env.rx, rule, TrimEnd(env.ascii(host), '.'))
  }

  lemma HostRuleAdded(env: Env, r: Rules, rule: string, host: string)
    ensures HostIn(env, WithHostRule(r, rule), host) <==> HostIn(env, r, host) || RuleHits(env, rule, host)
  {
    hide Added, RuleMatches, HostMatched;
    AddedMatches(env.rx, r.hosts, rule, env.ascii(host));
  }

  lemma HostRuleKeepsIps(env: Env, r: Rules, rule: string, host: string, port: u16)
    ensures SomeResolvedMatched(env, WithHostRule(r, rule), host, port) == SomeResolvedMatched(env, r, host, port)
  {
    hide Added, V4Contains, V6Contains;
    forall ip: IpAddr
      ensures IpMatched(WithHostRule(r, rule), ip) == IpMatched(r, ip)
    {
    }
  }

  /** A rule on the proxy list that matches a host sends it through the proxy, whatever else the
      lists, the mode and the resolver say; one that does not match changes nothing. */
  lemma ProxyHostRule(env: Env, acl: Acl, rule: string, host: string, port: u16)
    ensures var acl' := acl.(whiteList := WithHostRule(acl.whiteList, rule));
            Bypassed(env, acl', DomainName(host, port)) <==>
            !RuleHits(env, rule, host) && Bypassed(env, acl, DomainName(host, port))
  {
    hide RuleHits, HostIn, WithHostRule, SomeResolvedMatched;
    HostRuleAdded(env, acl.whiteList, rule, host);
    HostRuleKeepsIps(env, acl.whiteList, rule, host, port);
  }

  /** A rule on the bypass list that matches a host bypasses it unless the proxy list matches it
      too; one that does not match changes nothing. */
  lemma BypassHostRule(env: Env, acl: Acl, rule: string, host: string, port: u16)
    ensures var acl' := acl.(blackList := WithHostRule(acl.blackList, rule));
            Bypassed(env, acl', DomainName(host, port)) <==>
            if RuleHits(env, rule, host) then !HostIn(env, acl.whiteList, host)
            else Bypassed(env, acl, DomainName(host, port))
  {
    hide RuleHits, HostIn, WithHostRule, SomeResolvedMatched;
    HostRuleAdded(env, acl.blackList, rule, host);
    HostRuleKeepsIps(env, acl.blackList, rule, host, port);
  }

  /** Outbound, the block list wins. */
  lemma OutboundHostRules(env: Env, acl: Acl, rule: string, host: string, port: u16)
    ensures var acl' := acl.(outboundBlock := WithHostRule(acl.outboundBlock, rule));
            OutboundBlocked(env, acl', DomainName(host, port)) <==>
            RuleHits(env, rule, host) || OutboundBlocked(env, acl, DomainName(host, port))
    ensures var acl' := acl.(outboundAllow := WithHostRule(acl.outboundAllow, rule));
            OutboundBlocked(env, acl', DomainName(host, port)) <==>
            if RuleHits(env, rule, host) then HostIn(env, acl.outboundBlock, host)
            else OutboundBlocked(env, acl, DomainName(host, port))
  {
    hide RuleHits, HostIn, WithHostRule, SomeResolvedMatched;
    HostRuleAdded(env, acl.outboundBlock, rule, host);
    HostRuleKeepsIps(env, acl.outboundBlock, rule, host, port);
    HostRuleAdded(env, acl.outboundAllow, rule, host);
    HostRuleKeepsIps(env, acl.outboundAllow, rule, host, port);
  }

  datatype Network = Four(v4: Ipv4Net) | Six(v6: Ipv6Net)

  function WithNetwork(r: Rules, n: Network): Rules {
    match n
    case Four(v4) => r.(ipv4 := r.ipv4 + {v4})
    case Six(v6) => r.(ipv6 := r.ipv6 + {v6})
  }

  predicate NetworkOk(n: Network) {
    if n.Four? then n.v4.prefix <= 32 else n.v6.prefix <= 128
  }

  /** `a` and `base` lie in the same block of 2^bits addresses. */
  predicate SameBlock(a: nat, base: nat, bits: nat) {
    a / Pow2(bits) == base / Pow2(bits)
  }

  /** `ip`, in the form that the network is written in, lies in the same block as the network's
      own address. */
  ghost predicate Holds(n: Network, ip: IpAddr)
    requires NetworkOk(n)
  {
    match n
    case Four(Ipv4Net(base, prefix)) =>
      exists a: u32 :: (ip == V4(a) || ip == V6(ToIpv6Mapped(a))) && SameBlock(a, base, 32 - prefix)
    case Six(Ipv6Net(base, prefix)) =>
      SameBlock(if ip.V4? then ToIpv6Mapped(ip.v4) else ip.v6, base, 128 - prefix)
  }

  /** One more network on a list: the addresses it holds match, in either form, and nothing else
      changes. */
  lemma NetworkAdded(r: Rules, n: Network, ip: IpAddr)
    requires NetworkOk(n)
    ensures IpMatched(WithNetwork(r, n), ip) <==> IpMatched(r, ip) || Holds(n, ip)
  {
    hide InPrefix;
    match n {
      case Four(v4) =>
        forall a: u32
          ensures InPrefix(v4.base, v4.prefix, 32, a) <==> SameBlock(a, v4.base, 32 - v4.prefix)
        {
          InPrefixIffSameBlock(v4.base, v4.prefix, 32, a);
        }
        V4Added(r.ipv4, v4);
      case Six(v6) =>
        InPrefixIffSameBlock(v6.base, v6.prefix, 128, if ip.V4? then ToIpv6Mapped(ip.v4) else ip.v6);
        V6Added(r.ipv6, v6);
    }
  }

  lemma V4Added(nets: set<Ipv4Net>, n: Ipv4Net)
    ensures forall a: u32 :: V4Contains(nets + {n}, a) <==> V4Contains(nets, a) || InPrefix(n.base, n.prefix, 32, a)
  {
    hide InPrefix;
  }

  lemma V6Added(nets: set<Ipv6Net>, n: Ipv6Net)
    ensures forall a: u128 :: V6Contains(nets + {n}, a) <==> V6Contains(nets, a) || InPrefix(n.base, n.prefix, 128, a)
  {
    hide InPrefix;
  }

  /** A network on the bypass list bypasses its addresses; on the proxy list it proxies those that
      the bypass list does not match; and addresses it does not hold keep their answer. */
  lemma NetworkRules(env: Env, acl: Acl, n: Network, sa: SocketAddr)
    requires NetworkOk(n)
    ensures Bypassed(env, acl.(blackList := WithNetwork(acl.blackList, n)), SocketAddress(sa)) <==>
            Holds(n, sa.ip) || Bypassed(env, acl, SocketAddress(sa))
    ensures Bypassed(env, acl.(whiteList := WithNetwork(acl.whiteList, n)), SocketAddress(sa)) <==>
            if Holds(n, sa.ip) then IpMatched(acl.blackList, sa.ip) else Bypassed(env, acl, SocketAddress(sa))
  {
    hide IpMatched, Holds, WithNetwork;
    NetworkAdded(acl.blackList, n, sa.ip);
    NetworkAdded(acl.whiteList, n, sa.ip);
  }

  lemma OutboundNetworkRules(env: Env, acl: Acl, n: Network, sa: SocketAddr)
    requires NetworkOk(n)
    ensures OutboundBlocked(env, acl.(outboundBlock := WithNetwork(acl.outboundBlock, n)), SocketAddress(sa)) <==>
            Holds(n, sa.ip) || OutboundBlocked(env, acl, SocketAddress(sa))
    ensures OutboundBlocked(env, acl.(outboundAllow := WithNetwork(acl.outboundAllow, n)), SocketAddress(sa)) <==>
            if Holds(n, sa.ip) then IpMatched(acl.outboundBlock, sa.ip) else OutboundBlocked(env, acl, SocketAddress(sa))
  {
    hide IpMatched, Holds, WithNetwork;
    NetworkAdded(acl.outboundBlock, n, sa.ip);
    NetworkAdded(acl.outboundAllow, n, sa.ip);
  }

  const NO_RULES := Rules({}, {}, HostSpec({}, [], []))

  /** With no rule at all, the mode alone decides, for addresses and for domains that resolve or
      not. */
  lemma ModeIsDefault(env: Env, mode: Mode, outboundMode: Mode, addr: Address)
    ensures var acl := Acl(NO_RULES, NO_RULES, NO_RULES, NO_RULES, mode, outboundMode);
            && Bypassed(env, acl, addr) == mode.WhiteList?
            && OutboundBlocked(env, acl, addr) == outboundMode.WhiteList?
  {
  }

  /** Skipping name resolution for an empty list changes nothing. */
  lemma NothingResolvedMatched(env: Env, r: Rules, host: string, port: u16)
    ensures IpEmpty(r) ==> !SomeResolvedMatched(env, r, host, port)
  {
  }

  // ----- Domains against addresses

  ghost predicate NoHostRule(env: Env, acl: Acl, host: string) {
    !HostIn(env, acl.whiteList, host) && !HostIn(env, acl.blackList, host)
  }

  ghost predicate NoOutboundHostRule(env: Env, acl: Acl, host: string) {
    !HostIn(env, acl.outboundBlock, host) && !HostIn(env, acl.outboundAllow, host)
  }

  ghost function Ips(addrs: seq<SocketAddr>): set<IpAddr> {
    set k | 0 <= k < |addrs| :: addrs[k].ip
  }

  /** The decision for a domain without a host rule depends only on the set of resolved
      addresses: not on their order, their repetition or their ports. */
  lemma DecisionIgnoresOrder(env: Env, env': Env, acl: Acl, host: string, port: u16,
                             a: seq<SocketAddr>, b: seq<SocketAddr>)
    requires env' == env.(dns := env'.dns)
    requires env.dns(host, port) == Some(a) && env'.dns(host, port) == Some(b) && Ips(a) == Ips(b)
    ensures Bypassed(env, acl, DomainName(host, port)) == Bypassed(env', acl, DomainName(host, port))
    ensures OutboundBlocked(env, acl, DomainName(host, port)) == OutboundBlocked(env', acl, DomainName(host, port))
  {
    hide IpMatched, HostMatched;
    forall r: Rules
      ensures SomeResolvedMatched(env, r, host, port) == SomeResolvedMatched(env', r, host, port)
    {
      MatchedByIps(env, r, host, port, a);
      MatchedByIps(env', r, host, port, b);
    }
  }

  lemma MatchedByIps(env: Env, r: Rules, host: string, port: u16, addrs: seq<SocketAddr>)
    requires env.dns(host, port) == Some(addrs)
    ensures SomeResolvedMatched(env, r, host, port) <==> exists ip :: ip in Ips(addrs) && IpMatched(r, ip)
  {
  }

  predicate InBoth(r: Rules, q: Rules, ip: IpAddr) {
    IpMatched(r, ip) && IpMatched(q, ip)
  }

  /** A domain with one resolved address is treated as that address exactly when unlisted
      traffic is proxied, or the address is not in both lists. */
  lemma SingleAddressAgreesIff(env: Env, acl: Acl, host: string, port: u16, sa: SocketAddr)
    requires NoHostRule(env, acl, host) && env.dns(host, port) == Some([sa])
    ensures Bypassed(env, acl, DomainName(host, port)) == Bypassed(env, acl, SocketAddress(sa))
       <==> acl.mode.BlackList? || !InBoth(acl.blackList, acl.whiteList, sa.ip)
  {
    hide IpMatched, HostMatched;
    assert [sa][0] == sa;
  }

  lemma SingleOutboundAgreesIff(env: Env, acl: Acl, host: string, port: u16, sa: SocketAddr)
    requires NoOutboundHostRule(env, acl, host) && env.dns(host, port) == Some([sa])
    ensures OutboundBlocked(env, acl, DomainName(host, port)) == OutboundBlocked(env, acl, SocketAddress(sa))
       <==> acl.outboundMode.BlackList? || !InBoth(acl.outboundBlock, acl.outboundAllow, sa.ip)
  {
    hide IpMatched, HostMatched;
    assert [sa][0] == sa;
  }

  /** The rules that match one IPv4 address and nothing else. */
  function JustThis(a: u32): Rules {
    Rules({Ipv4Net(a, 32)}, {}, HostSpec({}, [], []))
  }

  lemma JustThisMatches(env: Env, a: u32, host: string)
    ensures IpMatched(JustThis(a), V4(a)) && !HostIn(env, JustThis(a), host)
  {
    assert Ipv4Net(a, 32) in JustThis(a).ipv4 && InPrefix(a, 32, 32, a);
  }

  /** One address in both lists, unlisted traffic bypassed: the address is bypassed and a domain
      that resolves to it alone is proxied. Likewise it is blocked for outbound traffic and the
      domain is not. */
  lemma TwiceListedDisagrees(env: Env, host: string, port: u16, a: u32, sa: SocketAddr)
    requires sa.ip == V4(a) && env.dns(host, port) == Some([sa])
    ensures var acl := Acl(JustThis(a), JustThis(a), JustThis(a), JustThis(a), WhiteList, WhiteList);
            && Bypassed(env, acl, SocketAddress(sa)) && !Bypassed(env, acl, DomainName(host, port))
            && OutboundBlocked(env, acl, SocketAddress(sa)) && !OutboundBlocked(env, acl, DomainName(host, port))
  {
    hide IpMatched, HostIn, JustThis;
    var acl := Acl(JustThis(a), JustThis(a), JustThis(a), JustThis(a), WhiteList, WhiteList);
    JustThisMatches(env, a, host);
    SingleAddressAgreesIff(env, acl, host, port, sa);
    SingleOutboundAgreesIff(env, acl, host, port, sa);
  }

  ghost predicate SomeBypassed(env: Env, acl: Acl, addrs: seq<SocketAddr>) {
    exists k :: 0 <= k < |addrs| && Bypassed(env, acl, SocketAddress(addrs[k]))
  }

  ghost predicate AllBypassed(env: Env, acl: Acl, addrs: seq<SocketAddr>) {
    forall k :: 0 <= k < |addrs| ==> Bypassed(env, acl, SocketAddress(addrs[k]))
  }

  /** With any number of addresses: when unlisted traffic is proxied, the domain is bypassed
      exactly when some address would be. When it is bypassed, the domain is bypassed if and
      only if all addresses would be, except where every proxy-listed address is also listed
      for bypass and there is one. */
  lemma DomainAgainstAddresses(env: Env, acl: Acl, host: string, port: u16, addrs: seq<SocketAddr>)
    requires NoHostRule(env, acl, host) && env.dns(host, port) == Some(addrs)
    ensures acl.mode.BlackList? ==> Bypassed(env, acl, DomainName(host, port)) == SomeBypassed(env, acl, addrs)
    ensures acl.mode.WhiteList? ==>
              (Bypassed(env, acl, DomainName(host, port)) == AllBypassed(env, acl, addrs)
               <==> (SomeResolvedMatched(env, acl.whiteList, host, port) ==>
                       exists k :: 0 <= k < |addrs|
                         && IpMatched(acl.whiteList, addrs[k].ip) && !IpMatched(acl.blackList, addrs[k].ip)))
  {
  }
}
