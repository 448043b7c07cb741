/** The reverse-lookup cache of the local server: it remembers only the addresses for which a
    DNS answer contradicts the access-control list. */
module ReverseLookup {
  import opened Bytes
  import opened Net
  import opened AccessControl

  /** What happens to the cache: a DNS answer says whether `ip` is to be forwarded, or the
      cache drops an entry (by age or by size, at any time). */
  datatype CacheOp = Record(ip: IpAddr, forward: bool) | Evict(ip: IpAddr)

  type Cache = map<IpAddr, bool>

  /** The list's own verdict on an address; without a list everything is forwarded. */
  predicate ForwardByDefault(acl: Option<Acl>, ip: IpAddr) {
    match acl
    case None => true
    case Some(a) => IpProxied(a, ip)
  }

  function Recorded(acl: Option<Acl>, cache: Cache, ip: IpAddr, forward: bool): Cache {
    if forward != ForwardByDefault(acl, ip) then cache[ip := forward] else cache - {ip}
  }

  function Step(acl: Option<Acl>, cache: Cache, op: CacheOp): Cache {
    match op
    case Record(ip, forward) => Recorded(acl, cache, ip, forward)
    case Evict(ip) => cache - {ip}
  }

  function Run(acl: Option<Acl>, ops: seq<CacheOp>): Cache {
    if ops == [] then map[] else Step(acl, Run(acl, ops[..|ops| - 1]), ops[|ops| - 1])
  }

  /** `check_target_bypassed`: the cache first, then the list. */
  predicate ContextBypassed(env: Env, acl: Option<Acl>, cache: Cache, addr: Address) {
    match acl
    case None => false
    case Some(a) =>
      if addr.SocketAddress? && addr.sa.ip in cache then !cache[addr.sa.ip] else Bypassed(env, a, addr)
  }

  ghost predicate OnlyExceptions(acl: Option<Acl>, cache: Cache) {
    forall ip :: ip in cache ==> cache[ip] != ForwardByDefault(acl, ip)
  }

  /** After any history every cached entry contradicts the list. */
  lemma {:induction false} CacheHoldsOnlyExceptions(acl: Option<Acl>, ops: seq<CacheOp>)
    ensures OnlyExceptions(acl, Run(acl, ops))
  {
    hide IpProxied;
    if ops != [] {
      CacheHoldsOnlyExceptions(acl, ops[..|ops| - 1]);
    }
  }

  /** The last thing that happened to `ip`. */
  function Last(ops: seq<CacheOp>, ip: IpAddr): Option<CacheOp> {
    if ops == [] then None
    else if ops[|ops| - 1].ip == ip then Some(ops[|ops| - 1])
    else Last(ops[..|ops| - 1], ip)
  }

  /** How the history of `ip` alone decides whether it is forwarded. */
  function Verdict(acl: Option<Acl>, last: Option<CacheOp>, ip: IpAddr): bool {
    match last
    case Some(Record(_, forward)) => forward
    case _ => ForwardByDefault(acl, ip)
  }

  lemma {:induction false} CacheFollowsLast(acl: Option<Acl>, ops: seq<CacheOp>, ip: IpAddr)
    ensures var cache := Run(acl, ops);
            (if ip in cache then cache[ip] else ForwardByDefault(acl, ip)) == Verdict(acl, Last(ops, ip), ip)
  {
    hide IpProxied;
    if ops != [] {
      CacheFollowsLast(acl, ops[..|ops| - 1], ip);
    }
  }

  /** With a list, the answer for an address is the opposite of what was last recorded for it;
      with nothing recorded, or an eviction since, it is the list's own answer. */
  lemma {:induction false} AnswerFollowsLastRecord(env: Env, acl: Acl, ops: seq<CacheOp>, sa: SocketAddr)
    ensures ContextBypassed(env, Some(acl), Run(Some(acl), ops), SocketAddress(sa))
         == match Last(ops, sa.ip)
            case Some(Record(_, forward)) => !forward
            case _ => Bypassed(env, acl, SocketAddress(sa))
  {
    CacheFollowsLast(Some(acl), ops, sa.ip);
  }

  /** Without a list nothing is bypassed, so a recorded `forward == false` is not honoured. */
  lemma {:induction false} RecordHonouredIff(env: Env, acl: Option<Acl>, ops: seq<CacheOp>, sa: SocketAddr,
                                               forward: bool)
    requires Last(ops, sa.ip) == Some(Record(sa.ip, forward))
    ensures ContextBypassed(env, acl, Run(acl, ops), SocketAddress(sa)) == !forward
       <==> acl.Some? || forward
  {
    hide IpProxied;
    if acl.Some? {
      AnswerFollowsLastRecord(env, acl.value, ops, sa);
    }
  }

  /** Without a list, the verdict recorded for an address of one of the servers, which is not to
      be forwarded, leaves it forwarded; with a list it is bypassed. */
  lemma UnlistedVerdictIsLost(env: Env, acl: Acl, sa: SocketAddr)
    ensures var ops := [Record(sa.ip, false)];
            && !ContextBypassed(env, None, Run(None, ops), SocketAddress(sa))
            && ContextBypassed(env, Some(acl), Run(Some(acl), ops), SocketAddress(sa))
  {
    var ops := [Record(sa.ip, false)];
    assert ops[|ops| - 1] == Record(sa.ip, false);
    RecordHonouredIff(env, None, ops, sa, false);
    RecordHonouredIff(env, Some(acl), ops, sa, false);
  }

  /** Verdicts are recorded for addresses only: for a domain the list decides, whatever was
      recorded, and without a list everything is forwarded. */
  lemma DomainAnswerIsTheLists(env: Env, acl: Option<Acl>, ops: seq<CacheOp>, host: string, port: u16)
    ensures ContextBypassed(env, acl, Run(acl, ops), DomainName(host, port))
       <==> acl.Some? && Bypassed(env, acl.value, DomainName(host, port))
  {
  }

  /** Records for other addresses never change the answer for this one. */
  lemma OtherAddressesUntouched(env: Env, acl: Option<Acl>, ops: seq<CacheOp>, op: CacheOp, addr: Address)
    requires addr.SocketAddress? ==> op.ip != addr.sa.ip
    ensures ContextBypassed(env, acl, Run(acl, ops + [op]), addr) == ContextBypassed(env, acl, Run(acl, ops), addr)
  {
  }

  // ----- The context that owns the cache

  class ServiceContext {
    const acl: Option<Acl>
    var reverseLookupCache: Cache
    /** Everything that happened to the cache so far. */
    ghost var history: seq<CacheOp>

    ghost predicate Valid()
      reads this
    {
      reverseLookupCache == Run(acl, history) && OnlyExceptions(acl, reverseLookupCache)
    }

    constructor (acl: Option<Acl>)
      ensures Valid() && this.acl == acl && history == []
    {
      this.acl := acl;
      reverseLookupCache, history := map[], [];
    }

    method CheckTargetBypassed(env: Env, addr: Address) returns (bypass: bool)
      requires Valid()
      ensures bypass == ContextBypassed(env, acl, reverseLookupCache, addr)
      ensures acl.Some? && addr.SocketAddress? ==>
                bypass != Verdict(acl, Last(history, addr.sa.ip), addr.sa.ip)
    {
      match acl {
        case None => return false;
        case Some(a) =>
          if addr.SocketAddress? {
            CacheFollowsLast(acl, history, addr.sa.ip);
            if addr.sa.ip in reverseLookupCache {
              return !reverseLookupCache[addr.sa.ip];
            }
          }
          bypass := AccessControl.CheckTargetBypassed(env, a, addr);
      }
    }

    method AddToReverseLookupCache(addr: IpAddr, forward: bool)
      requires Valid()
      modifies this
      ensures Valid() && history == old(history) + [Record(addr, forward)]
    {
      var isException := forward != (match acl case None => true case Some(a) => IpProxied(a, addr));
      history := history + [Record(addr, forward)];
      assert history[..|history| - 1] == old(history);
      if addr in reverseLookupCache {
        if isException {
          reverseLookupCache := reverseLookupCache[addr := forward];
        } else {
          reverseLookupCache := reverseLookupCache - {addr};
        }
      } else {
        if isException {
          reverseLookupCache := reverseLookupCache[addr := forward];
        } else {
          assert reverseLookupCache - {addr} == reverseLookupCache;
        }
      }
      CacheHoldsOnlyExceptions(acl, history);
    }

    /** The cache's own aging and size limit. */
    method DropEntry(addr: IpAddr)
      requires Valid()
      modifies this
      ensures Valid() && history == old(history) + [Evict(addr)]
    {
      history := history + [Evict(addr)];
      assert history[..|history| - 1] == old(history);
      reverseLookupCache := reverseLookupCache - {addr};
    }
  }
}
