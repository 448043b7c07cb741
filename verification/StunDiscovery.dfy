/** Asking several STUN servers: one reflexive address per address family. */
module StunDiscovery {
  import opened Bytes
  import opened Net

  datatype StunBinding = StunBinding(server: SocketAddr, reflexive: SocketAddr)

  /** The families the socket reaches, name resolution, and what each address answers. */
  datatype Env = Env(
    v4Ok: bool,
    v6Ok: bool,
    resolve: string -> Option<seq<SocketAddr>>,
    answer: SocketAddr -> Option<SocketAddr>
  )

  datatype Found = Found(out: seq<StunBinding>, haveV4: bool, haveV6: bool)

  predicate Reaches(env: Env, v4: bool) {
    if v4 then env.v4Ok else env.v6Ok
  }

  predicate Has(f: Found, v4: bool) {
    if v4 then f.haveV4 else f.haveV6
  }

  predicate Enough(env: Env, f: Found) {
    (f.haveV4 || !env.v4Ok) && (f.haveV6 || !env.v6Ok)
  }

  /** One resolved address: skipped if its family is out of reach or already known, else asked. */
  function AskOne(env: Env, f: Found, a: SocketAddr): Found {
    if !Reaches(env, a.ip.V4?) || Has(f, a.ip.V4?) then f
    else
      match env.answer(a)
      case None => f
      case Some(r) =>
        Found(f.out + [StunBinding(a, r)], f.haveV4 || r.ip.V4?, f.haveV6 || !r.ip.V4?)
  }

  function AskAll(env: Env, f: Found, addrs: seq<SocketAddr>): Found
    decreases |addrs|
  {
    if addrs == [] then f else AskAll(env, AskOne(env, f, addrs[0]), addrs[1..])
  }

  function AskServers(env: Env, f: Found, servers: seq<string>): Found
    decreases |servers|
  {
    if servers == [] || Enough(env, f) then f
    else
      match env.resolve(servers[0])
      case None => AskServers(env, f, servers[1..])
      case Some(addrs) => AskServers(env, AskAll(env, f, addrs), servers[1..])
  }

  function Discovered(env: Env, servers: seq<string>): seq<StunBinding> {
    AskServers(env, Found([], false, false), servers).out
  }

  // ----- At most one binding per family

  /** Every address that can be asked answers, if at all, with an address of its own family. */
  ghost predicate SameFamilyAnswers(env: Env) {
    forall a: SocketAddr :: Reaches(env, a.ip.V4?) && env.answer(a).Some? ==>
      env.answer(a).value.ip.V4? == a.ip.V4?
  }

  ghost predicate OnePerFamily(out: seq<StunBinding>) {
    forall i, j :: 0 <= i < j < |out| ==> out[i].reflexive.ip.V4? != out[j].reflexive.ip.V4?
  }

  /** The flags say which families have a binding; every binding is a real answer. */
  ghost predicate Sound(env: Env, f: Found) {
    && (f.haveV4 <==> exists i :: 0 <= i < |f.out| && f.out[i].reflexive.ip.V4?)
    && (f.haveV6 <==> exists i :: 0 <= i < |f.out| && !f.out[i].reflexive.ip.V4?)
    && forall i :: 0 <= i < |f.out| ==>
         Reaches(env, f.out[i].server.ip.V4?) && env.answer(f.out[i].server) == Some(f.out[i].reflexive)
  }

  lemma AskOneSound(env: Env, f: Found, a: SocketAddr)
    requires Sound(env, f)
    ensures Sound(env, AskOne(env, f, a))
    ensures SameFamilyAnswers(env) && OnePerFamily(f.out) ==> OnePerFamily(AskOne(env, f, a).out)
  {
    var g := AskOne(env, f, a);
    if g != f {
      var n := |f.out|;
      assert g.out[n].reflexive == env.answer(a).value;
      assert forall i :: 0 <= i < n ==> g.out[i] == f.out[i];
    }
  }

  lemma {:induction false} AskAllSound(env: Env, f: Found, addrs: seq<SocketAddr>)
    requires Sound(env, f)
    ensures Sound(env, AskAll(env, f, addrs))
    ensures SameFamilyAnswers(env) && OnePerFamily(f.out) ==> OnePerFamily(AskAll(env, f, addrs).out)
    decreases |addrs|
  {
    hide AskOne, Sound, SameFamilyAnswers, OnePerFamily;
    if addrs != [] {
      AskOneSound(env, f, addrs[0]);
      AskAllSound(env, AskOne(env, f, addrs[0]), addrs[1..]);
    }
  }

  lemma {:induction false} AskServersSound(env: Env, f: Found, servers: seq<string>)
    requires Sound(env, f)
    ensures Sound(env, AskServers(env, f, servers))
    ensures SameFamilyAnswers(env) && OnePerFamily(f.out) ==> OnePerFamily(AskServers(env, f, servers).out)
    decreases |servers|
  {
    hide AskAll, Sound, SameFamilyAnswers, OnePerFamily;
    if servers != [] && !Enough(env, f) {
      match env.resolve(servers[0]) {
        case None => AskServersSound(env, f, servers[1..]);
        case Some(addrs) =>
          AskAllSound(env, f, addrs);
          AskServersSound(env, AskAll(env, f, addrs), servers[1..]);
      }
    }
  }

  lemma DiscoveredOnePerFamily(env: Env, servers: seq<string>)
    requires SameFamilyAnswers(env)
    ensures OnePerFamily(Discovered(env, servers))
  {
    AskServersSound(env, Found([], false, false), servers);
  }

  ghost predicate AlwaysOnePerFamily(env: Env) {
    forall resolve: string -> Option<seq<SocketAddr>>, servers: seq<string> ::
      OnePerFamily(Discovered(env.(resolve := resolve), servers))
  }

  /** Whatever the names resolve to there is at most one binding per family, exactly when the
      servers answer in their own family. */
  lemma OnePerFamilyIffSameFamilyAnswers(env: Env)
    ensures AlwaysOnePerFamily(env) <==> SameFamilyAnswers(env)
  {
    if SameFamilyAnswers(env) {
      forall resolve: string -> Option<seq<SocketAddr>>, servers: seq<string>
        ensures OnePerFamily(Discovered(env.(resolve := resolve), servers))
      {
        assert SameFamilyAnswers(env.(resolve := resolve));
        DiscoveredOnePerFamily(env.(resolve := resolve), servers);
      }
    } else {
      var a: SocketAddr :| Reaches(env, a.ip.V4?) && env.answer(a).Some? && env.answer(a).value.ip.V4? != a.ip.V4?;
      var resolve := (_: string) => Some([a, a]);
      var bad := env.(resolve := resolve);
      CrossFamilyAnswersTwice(bad, a);
    }
  }

  /** An address that answers in the other family is asked again and yields a second binding. */
  lemma CrossFamilyAnswersTwice(env: Env, a: SocketAddr)
    requires Reaches(env, a.ip.V4?) && env.answer(a).Some? && env.answer(a).value.ip.V4? != a.ip.V4?
    requires env.resolve("") == Some([a, a])
    ensures !OnePerFamily(Discovered(env, [""]))
  {
    var f0 := Found([], false, false);
    var f1 := AskOne(env, f0, a);
    var f2 := AskOne(env, f1, a);
    assert [a, a][1..] == [a] && [a][1..] == [];
    assert AskAll(env, f1, [a]) == AskAll(env, f2, []) == f2;
    assert AskAll(env, f0, [a, a]) == f2;
    assert [""][1..] == [];
    assert AskServers(env, f0, [""]) == AskServers(env, f2, []) == f2;
    assert f2.out[0].reflexive == f2.out[1].reflexive;
  }

  // ----- A binding for every family that can be learned

  lemma {:induction false} AskAllKeepsAndFinds(env: Env, f: Found, addrs: seq<SocketAddr>, v4: bool)
    requires SameFamilyAnswers(env) && Reaches(env, v4)
    requires Has(f, v4) || exists a :: a in addrs && a.ip.V4? == v4 && env.answer(a).Some?
    ensures Has(AskAll(env, f, addrs), v4)
    decreases |addrs|
  {
    if addrs != [] {
      var g := AskOne(env, f, addrs[0]);
      if !Has(g, v4) {
        var a :| a in addrs && a.ip.V4? == v4 && env.answer(a).Some?;
        assert a != addrs[0];
        assert a in addrs[1..];
      }
      AskAllKeepsAndFinds(env, g, addrs[1..], v4);
    }
  }

  ghost predicate SomeServerAnswers(env: Env, servers: seq<string>, v4: bool) {
    exists s, a :: s in servers && Answering(env, s, a, v4)
  }

  ghost predicate Answering(env: Env, s: string, a: SocketAddr, v4: bool) {
    env.resolve(s).Some? && a in env.resolve(s).value && a.ip.V4? == v4 && env.answer(a).Some?
  }

  lemma {:induction false} AskServersFinds(env: Env, f: Found, servers: seq<string>, v4: bool)
    requires SameFamilyAnswers(env) && Reaches(env, v4)
    requires Has(f, v4) || SomeServerAnswers(env, servers, v4)
    ensures Has(AskServers(env, f, servers), v4)
    decreases |servers|
  {
    hide AskAll, SameFamilyAnswers;
    if servers != [] && !Enough(env, f) {
      var rest := servers[1..];
      if !Has(f, v4) && !SomeServerAnswers(env, rest, v4) {
        var s, a :| s in servers && Answering(env, s, a, v4);
        assert s == servers[0] || s in rest;
        assert s == servers[0];
        AskAllKeepsAndFinds(env, f, env.resolve(s).value, v4);
        AskServersFinds(env, AskAll(env, f, env.resolve(s).value), rest, v4);
      } else {
        match env.resolve(servers[0]) {
          case None => AskServersFinds(env, f, rest, v4);
          case Some(addrs) =>
            if Has(f, v4) {
              AskAllKeepsAndFinds(env, f, addrs, v4);
            }
            AskServersFinds(env, AskAll(env, f, addrs), rest, v4);
        }
      }
    }
  }

  /** Every reachable family in which some resolved server answers gets exactly one binding,
      and it is that server's answer. */
  lemma ExactlyOnePerAnsweringFamily(env: Env, servers: seq<string>, v4: bool) returns (i: nat)
    requires SameFamilyAnswers(env) && Reaches(env, v4) && SomeServerAnswers(env, servers, v4)
    ensures var out := Discovered(env, servers);
            && i < |out| && out[i].reflexive.ip.V4? == v4
            && env.answer(out[i].server) == Some(out[i].reflexive)
            && forall j :: 0 <= j < |out| && out[j].reflexive.ip.V4? == v4 ==> j == i
  {
    var f := Found([], false, false);
    AskServersSound(env, f, servers);
    AskServersFinds(env, f, servers, v4);
    i :| 0 <= i < |Discovered(env, servers)| && Discovered(env, servers)[i].reflexive.ip.V4? == v4;
  }

  // ----- Which binding it is

  /** All addresses of all servers that resolve, in order. */
  function Candidates(env: Env, servers: seq<string>): seq<SocketAddr> {
    if servers == [] then []
    else (match env.resolve(servers[0]) case None => [] case Some(addrs) => addrs) + Candidates(env, servers[1..])
  }

  /** The first of them in a reachable family that answers. */
  function FirstAnswering(env: Env, addrs: seq<SocketAddr>, v4: bool): Option<SocketAddr> {
    if addrs == [] || !Reaches(env, v4) then None
    else if addrs[0].ip.V4? == v4 && env.answer(addrs[0]).Some? then Some(addrs[0])
    else FirstAnswering(env, addrs[1..], v4)
  }

  /** The binding of a family is the one from `server`, if any. */
  ghost predicate BoundTo(env: Env, f: Found, v4: bool, server: Option<SocketAddr>) {
    && (Has(f, v4) <==> server.Some?)
    && (forall b :: b in f.out && b.reflexive.ip.V4? == v4 ==> server == Some(b.server))
    && (server.Some? ==>
          env.answer(server.value).Some? && StunBinding(server.value, env.answer(server.value).value) in f.out
          && env.answer(server.value).value.ip.V4? == v4)
  }

  function OrElse(a: Option<SocketAddr>, b: Option<SocketAddr>): Option<SocketAddr> {
    if a.Some? then a else b
  }

  lemma AskOneBinds(env: Env, f: Found, v4: bool, server: Option<SocketAddr>, a: SocketAddr)
    requires SameFamilyAnswers(env) && BoundTo(env, f, v4, server)
    ensures BoundTo(env, AskOne(env, f, a), v4, OrElse(server, FirstAnswering(env, [a], v4)))
  {
    assert [a][1..] == [];
    if AskOne(env, f, a) != f {
      var b := StunBinding(a, env.answer(a).value);
      assert AskOne(env, f, a).out == f.out + [b];
      assert b in f.out + [b];
    }
  }

  lemma {:induction false} AskAllBinds(env: Env, f: Found, v4: bool, server: Option<SocketAddr>, addrs: seq<SocketAddr>)
    requires SameFamilyAnswers(env) && BoundTo(env, f, v4, server)
    ensures BoundTo(env, AskAll(env, f, addrs), v4, OrElse(server, FirstAnswering(env, addrs, v4)))
    decreases |addrs|
  {
    hide AskOne, BoundTo, SameFamilyAnswers;
    if addrs != [] {
      var a := addrs[0];
      AskOneBinds(env, f, v4, server, a);
      AskAllBinds(env, AskOne(env, f, a), v4, OrElse(server, FirstAnswering(env, [a], v4)), addrs[1..]);
      FirstOfTwo(env, [a], addrs[1..], v4);
      assert [a] + addrs[1..] == addrs;
    }
  }

  lemma {:induction false} FirstOfTwo(env: Env, a: seq<SocketAddr>, b: seq<SocketAddr>, v4: bool)
    ensures FirstAnswering(env, a + b, v4) == OrElse(FirstAnswering(env, a, v4), FirstAnswering(env, b, v4))
  {
    if a == [] {
      assert a + b == b;
    } else {
      FirstOfTwo(env, a[1..], b, v4);
      assert (a + b)[1..] == a[1..] + b;
    }
  }

  lemma {:induction false} AskServersBinds(env: Env, f: Found, v4: bool, server: Option<SocketAddr>, servers: seq<string>)
    requires SameFamilyAnswers(env) && BoundTo(env, f, v4, server)
    ensures BoundTo(env, AskServers(env, f, servers), v4,
                    OrElse(server, FirstAnswering(env, Candidates(env, servers), v4)))
    decreases |servers|
  {
    hide AskAll, SameFamilyAnswers;
    if servers != [] && !Enough(env, f) {
      var addrs := match env.resolve(servers[0]) case None => [] case Some(addrs) => addrs;
      var rest := Candidates(env, servers[1..]);
      FirstOfTwo(env, addrs, rest, v4);
      if env.resolve(servers[0]).None? {
        assert addrs + rest == rest;
        AskServersBinds(env, f, v4, server, servers[1..]);
      } else {
        AskAllBinds(env, f, v4, server, addrs);
        AskServersBinds(env, AskAll(env, f, addrs), v4, OrElse(server, FirstAnswering(env, addrs, v4)), servers[1..]);
      }
    }
  }

  /** The binding of each family is that of the first candidate in it that answers, over all
      servers in order; a family without one, or out of reach, has no binding. */
  lemma FirstAnswerIsKept(env: Env, servers: seq<string>, v4: bool)
    requires SameFamilyAnswers(env)
    ensures var out, first := Discovered(env, servers), FirstAnswering(env, Candidates(env, servers), v4);
            && (forall b :: b in out && b.reflexive.ip.V4? == v4 ==> first == Some(b.server))
            && (first.Some? ==>
                  env.answer(first.value).Some? && StunBinding(first.value, env.answer(first.value).value) in out)
  {
    hide AskServers, Candidates, FirstAnswering;
    AskServersBinds(env, Found([], false, false), v4, None, servers);
  }

  // ----- The symmetric-NAT test on the result

  function Ports(out: seq<StunBinding>, v4: bool): set<u16> {
    set i | 0 <= i < |out| && out[i].reflexive.ip.V4? == v4 :: out[i].reflexive.port
  }

  /** So the set of reflexive ports of one family, on which the warning about a symmetric NAT
      depends, never has two elements. */
  lemma PortSetNeverTwo(env: Env, servers: seq<string>, v4: bool)
    requires SameFamilyAnswers(env)
    ensures |Ports(Discovered(env, servers), v4)| <= 1
  {
    DiscoveredOnePerFamily(env, servers);
    var ports := Ports(Discovered(env, servers), v4);
    if ports != {} {
      var p :| p in ports;
      assert ports == {p};
    }
  }

  // ----- The loops

  method DiscoverAll(env: Env, servers: seq<string>) returns (out: seq<StunBinding>)
    ensures out == Discovered(env, servers)
  {
    out := [];
    var haveV4, haveV6 := false, false;
    assert servers[0..] == servers;
    for i := 0 to |servers|
      invariant AskServers(env, Found(out, haveV4, haveV6), servers[i..]).out == Discovered(env, servers)
    {
      assert servers[i..][1..] == servers[i + 1..];
      if (haveV4 || !env.v4Ok) && (haveV6 || !env.v6Ok) {
        break;
      }
      match env.resolve(servers[i]) {
        case None =>
        case Some(addrs) =>
          ghost var goal := AskAll(env, Found(out, haveV4, haveV6), addrs);
          assert addrs[0..] == addrs;
          for j := 0 to |addrs|
            invariant AskAll(env, Found(out, haveV4, haveV6), addrs[j..]) == goal
          {
            assert addrs[j..][1..] == addrs[j + 1..];
            var addr := addrs[j];
            var famOk := if addr.ip.V4? then env.v4Ok else env.v6Ok;
            if !famOk {
              continue;
            }
            if (addr.ip.V4? && haveV4) || (!addr.ip.V4? && haveV6) {
              continue;
            }
            match env.answer(addr) {
              case None =>
              case Some(reflexive) =>
                if reflexive.ip.V4? {
                  haveV4 := true;
                } else {
                  haveV6 := true;
                }
                out := out + [StunBinding(addr, reflexive)];
            }
          }
      }
    }
  }
}
